/** The byte and entry budget of release extraction. */
module Budget {
  import opened Bytes

  const MAX_ENTRIES: nat := 50_000
  const MAX_EXPANDED_BYTES: nat := 2 * 1024 * 1024 * 1024
  const MAX_ENTRY_BYTES: nat := 64 * 1024 * 1024
  const U64_MAX: nat := 0xFFFF_FFFF_FFFF_FFFF

  datatype Verdict = Accepted | TooLarge | TooMany | TooMuch | CountOverflow | SizeOverflow

  ghost predicate AllSmall(sizes: seq<nat>) {
    forall i :: 0 <= i < |sizes| ==> sizes[i] <= MAX_ENTRY_BYTES
  }

  /** What the incremental checks add up to, over a whole sequence of sizes. */
  ghost predicate Fits(sizes: seq<nat>) {
    && AllSmall(sizes)
    && |sizes| <= MAX_ENTRIES
    && Sum(sizes) <= MAX_EXPANDED_BYTES
  }

  /** `ReleaseArchiveBudget`: `account` is called once per entry. The ghost
      history is the sizes of the calls so far. */
  class ReleaseArchiveBudget {
    var entryCount: nat
    var expandedBytes: nat
    ghost var history: seq<nat>

    ghost predicate Valid()
      reads this
    {
      && Fits(history)
      && entryCount == |history|
      && expandedBytes == Sum(history)
    }

    constructor ()
      ensures Valid() && history == []
    {
      entryCount, expandedBytes := 0, 0;
      history := [];
    }

    /** Accepts exactly when the extended history still fits; the two
        `checked_add` overflow branches are never taken. */
    method Account(size: nat) returns (v: Verdict)
      requires Valid()
      modifies this
      ensures v.Accepted? <==> Fits(old(history) + [size])
      ensures v.Accepted? ==> Valid() && history == old(history) + [size]
      ensures !v.CountOverflow? && !v.SizeOverflow?
      ensures v.TooLarge? <==> size > MAX_ENTRY_BYTES
      ensures entryCount == old(entryCount) + (if v.TooLarge? then 0 else 1)
      ensures expandedBytes == old(expandedBytes) + (if v.Accepted? || v.TooMuch? then size else 0)
      ensures !v.Accepted? ==> history == old(history)
    {
      FitsSnoc(history, size);
      if size > MAX_ENTRY_BYTES {
        return TooLarge;
      }
      if entryCount + 1 > U64_MAX {
        return CountOverflow;
      }
      entryCount := entryCount + 1;
      if entryCount > MAX_ENTRIES {
        return TooMany;
      }
      if expandedBytes + size > U64_MAX {
        return SizeOverflow;
      }
      expandedBytes := expandedBytes + size;
      if expandedBytes > MAX_EXPANDED_BYTES {
        return TooMuch;
      }
      history := history + [size];
      return Accepted;
    }
  }

  lemma FitsSnoc(sizes: seq<nat>, size: nat)
    ensures Sum(sizes + [size]) == Sum(sizes) + size
    ensures Fits(sizes + [size]) <==>
            Fits(sizes) && size <= MAX_ENTRY_BYTES && |sizes| + 1 <= MAX_ENTRIES
            && Sum(sizes) + size <= MAX_EXPANDED_BYTES
  {
    SumAppend(sizes, [size]);
    assert Sum([size]) == size;
    if Fits(sizes + [size]) {
      forall i | 0 <= i < |sizes|
        ensures sizes[i] <= MAX_ENTRY_BYTES
      {
        assert (sizes + [size])[i] == sizes[i];
      }
      assert (sizes + [size])[|sizes|] == size;
    }
  }

  /** Whatever fits, every prefix of it fits. */
  lemma FitsPrefix(sizes: seq<nat>, n: nat)
    requires n <= |sizes| && Fits(sizes)
    ensures Fits(sizes[..n])
  {
    assert sizes == sizes[..n] + sizes[n..];
    SumAppend(sizes[..n], sizes[n..]);
  }

  /** Acceptance does not depend on the order in which entries arrive. */
  lemma FitsAnyOrder(a: seq<nat>, b: seq<nat>)
    requires multiset(a) == multiset(b)
    ensures Fits(a) <==> Fits(b)
  {
    SumOfPermutation(a, b);
    assert |a| == |multiset(a)| && |b| == |multiset(b)|;
    assert forall x :: x in multiset(a) <==> x in a;
    assert forall x :: x in multiset(b) <==> x in b;
    assert forall i :: 0 <= i < |a| ==> a[i] in b;
    assert forall i :: 0 <= i < |b| ==> b[i] in a;
  }
}
