/** Admission of a full CI run and selection among candidates. */
module FullCi {
  import opened Bytes
  import opened Sorting
  import Digests

  datatype Job = Job(name: Bytes, conclusion: Bytes)

  datatype Run = Run(databaseId: nat, headSha: Bytes, headBranch: Bytes, event: Bytes, conclusion: Bytes, url: Bytes,
                     jobs: seq<Job>)

  datatype Evidence = Evidence(runId: nat, url: Bytes, headSha: Bytes, headBranch: Bytes, jobs: seq<Job>)

  function JobNames(): (names: seq<Bytes>) {
    [Ascii("benchmark"),
     Ascii("compiler-precise-hostile"),
     Ascii("extra-native-package") + Ascii(" (ubuntu-24.04-arm, ") + Ascii("aarch64-unknown-linux-gnu)"),
     Ascii("go"),
     Ascii("go-loader-scope (bigpkg)"),
     Ascii("go-loader-scope (fanout)"),
     Ascii("go-macos"),
     Ascii("integration (macos-15, ") + Ascii("aarch64-apple-darwin)"),
     Ascii("integration (ubuntu-24.04, ") + Ascii("x86_64-unknown-linux-gnu, ") + Ascii("-C linker-features=-lld)"),
     Ascii("rust"),
     Ascii("web"),
     Ascii("windows-smoke")]
  }

  function Success(): (s: Bytes) { Ascii("success") }

  function RunUrl(id: nat): (url: Bytes) {
    Ascii("https://github.com/TamaT-LLC/depgraph-cli/actions/runs/") + Digests.Decimal(id)
  }

  function NameOf(j: Job): (n: Bytes) { j.name }

  function Names(jobs: seq<Job>): (names: seq<Bytes>)
    ensures |names| == |jobs|
  {
    Map(NameOf, jobs)
  }

  predicate FieldsMatch(run: Run, sourceSha: Bytes) {
    && run.databaseId != 0
    && run.headSha == sourceSha
    && run.headBranch == Ascii("main")
    && run.event == Ascii("workflow_dispatch")
    && run.conclusion == Success()
    && run.url == RunUrl(run.databaseId)
  }

  /** The run is the exact all-green run: matching fields, and jobs that are the
      expected ones in any order, each successful. */
  ghost predicate Admissible(run: Run, sourceSha: Bytes, expected: seq<Bytes>) {
    && FieldsMatch(run, sourceSha)
    && multiset(Names(run.jobs)) == multiset(expected)
    && forall i :: 0 <= i < |run.jobs| ==> run.jobs[i].conclusion == Success()
  }

  /** The expected list is strictly ascending, as comparing with a sorted list presumes. */
  ghost predicate StrictlyAscending(names: seq<Bytes>) {
    forall i, j :: 0 <= i < j < |names| ==> Leq(names[i], names[j]) && names[i] != names[j]
  }

  function Identity(n: Bytes): (k: Bytes) { n }

  lemma SortedNames(jobs: seq<Job>)
    ensures Names(Sort(NameOf, jobs)) == Sort(Identity, Names(jobs))
  {
    SortMaps(NameOf, NameOf, Identity, jobs);
  }

  /** Comparing the sorted names with the ascending list is comparing multisets. */
  lemma SortedNamesMatch(jobs: seq<Job>, expected: seq<Bytes>)
    requires StrictlyAscending(expected)
    ensures Names(Sort(NameOf, jobs)) == expected <==> multiset(Names(jobs)) == multiset(expected)
  {
    SortedNames(jobs);
    SortFixesSorted(Identity, expected);
    SortCanonical(Identity, Names(jobs), expected);
  }

  lemma SortedConclusions(jobs: seq<Job>)
    ensures (forall i :: 0 <= i < |jobs| ==> jobs[i].conclusion == Success()) <==>
            (forall i :: 0 <= i < |jobs| ==> Sort(NameOf, jobs)[i].conclusion == Success())
  {
    var sorted := Sort(NameOf, jobs);
    SortPermutes(NameOf, jobs);
    MultisetMembers(sorted, jobs);
    assert forall i :: 0 <= i < |jobs| ==> jobs[i] in sorted;
    assert forall i :: 0 <= i < |jobs| ==> sorted[i] in jobs;
  }

  method ValidateFullCi(run: Run, sourceSha: Bytes, expected: seq<Bytes>) returns (r: Option<Evidence>)
    requires StrictlyAscending(expected)
    ensures r.Some? <==> Admissible(run, sourceSha, expected)
    ensures r.Some? ==> r.value == Evidence(run.databaseId, run.url, run.headSha, run.headBranch, Sort(NameOf, run.jobs))
    ensures r.Some? ==> Names(r.value.jobs) == expected
  {
    var jobs := Sort(NameOf, run.jobs);
    SortedNamesMatch(run.jobs, expected);
    SortedConclusions(run.jobs);
    if !FieldsMatch(run, sourceSha) || Names(jobs) != expected {
      return None;
    }
    var i := 0;
    while i < |jobs|
      invariant 0 <= i <= |jobs|
      invariant forall j :: 0 <= j < i ==> jobs[j].conclusion == Success()
    {
      if jobs[i].conclusion != Success() {
        return None;
      }
      i := i + 1;
    }
    r := Some(Evidence(run.databaseId, run.url, run.headSha, run.headBranch, jobs));
  }

  /** The recorded job list does not depend on the order the jobs arrived in. */
  lemma EvidenceIgnoresJobOrder(run: Run, jobs: seq<Job>, sourceSha: Bytes, expected: seq<Bytes>)
    requires StrictlyAscending(expected) && Admissible(run, sourceSha, expected)
    requires multiset(jobs) == multiset(run.jobs)
    ensures Admissible(run.(jobs := jobs), sourceSha, expected)
    ensures Sort(NameOf, jobs) == Sort(NameOf, run.jobs)
  {
    AdmissibleNamesDetermine(run.jobs, expected);
    SortCanonical(NameOf, run.jobs, jobs);
    SortedNamesMatch(run.jobs, expected);
    SortedNamesMatch(jobs, expected);
    SortedConclusions(run.jobs);
    SortedConclusions(jobs);
    MultisetMembers(jobs, run.jobs);
  }

  lemma AdmissibleNamesDetermine(jobs: seq<Job>, expected: seq<Bytes>)
    requires StrictlyAscending(expected) && multiset(Names(jobs)) == multiset(expected)
    ensures KeyDetermines(NameOf, jobs)
  {
    SortedNamesMatch(jobs, expected);
    var sorted := Sort(NameOf, jobs);
    SortPermutes(NameOf, jobs);
    MultisetMembers(sorted, jobs);
    forall x, y | x in jobs && y in jobs && NameOf(x) == NameOf(y)
      ensures x == y
    {
      assert x in sorted && y in sorted;
      var i :| 0 <= i < |sorted| && sorted[i] == x;
      var j :| 0 <= j < |sorted| && sorted[j] == y;
      assert Names(sorted)[i] == Names(sorted)[j];
      assert expected[i] == expected[j];
    }
  }

  /** `filter` then `max_by_key`, which keeps the last of several maxima. */
  method SelectFullCi(inputs: seq<Run>, sourceSha: Bytes, expected: seq<Bytes>) returns (r: Option<Run>)
    requires StrictlyAscending(expected)
    ensures r.Some? <==> exists i :: 0 <= i < |inputs| && Admissible(inputs[i], sourceSha, expected)
    ensures r.Some? ==>
              exists i :: 0 <= i < |inputs| && inputs[i] == r.value && Admissible(inputs[i], sourceSha, expected)
                && (forall j :: 0 <= j < |inputs| && Admissible(inputs[j], sourceSha, expected) ==>
                      inputs[j].databaseId <= inputs[i].databaseId && (inputs[j].databaseId == inputs[i].databaseId ==> j <= i))
  {
    r := None;
    ghost var best := 0;
    var i := 0;
    while i < |inputs|
      invariant 0 <= i <= |inputs|
      invariant r.None? ==> forall j :: 0 <= j < i ==> !Admissible(inputs[j], sourceSha, expected)
      invariant r.Some? ==> 0 <= best < i && inputs[best] == r.value && Admissible(inputs[best], sourceSha, expected)
      invariant r.Some? ==> forall j :: 0 <= j < i && Admissible(inputs[j], sourceSha, expected) ==>
                  inputs[j].databaseId <= inputs[best].databaseId
                  && (inputs[j].databaseId == inputs[best].databaseId ==> j <= best)
    {
      var valid := ValidateFullCi(inputs[i], sourceSha, expected);
      if valid.Some? && (r.None? || r.value.databaseId <= inputs[i].databaseId) {
        r, best := Some(inputs[i]), i;
      }
      i := i + 1;
    }
  }

  /** What an admissible run is, written out. */
  lemma AdmissibleExactly(run: Run, sourceSha: Bytes, expected: seq<Bytes>)
    ensures Admissible(run, sourceSha, expected) <==>
            && run.databaseId > 0 && run.headSha == sourceSha && run.headBranch == Ascii("main")
            && run.event == Ascii("workflow_dispatch") && run.conclusion == Ascii("success")
            && run.url == Ascii("https://github.com/TamaT-LLC/depgraph-cli/actions/runs/") + Digests.Decimal(run.databaseId)
            && multiset(Names(run.jobs)) == multiset(expected)
            && forall j :: j in run.jobs ==> j.conclusion == Ascii("success")
  {
    assert forall i :: 0 <= i < |run.jobs| ==> run.jobs[i] in run.jobs;
  }

  // ---- the pinned job list ----

  ghost predicate Precedes(a: Bytes, b: Bytes) {
    Leq(a, b) && a != b
  }

  /** Two texts whose beginnings first differ at byte `n`. */
  lemma TextPrecedes(a: string, x: Bytes, b: string, y: Bytes, n: nat)
    requires n < |a| && n < |b| && a[..n] == b[..n] && (a[n] as int) % 256 < (b[n] as int) % 256
    ensures Precedes(Ascii(a) + x, Ascii(b) + y)
  {
    var s, t := Ascii(a) + x, Ascii(b) + y;
    forall i | 0 <= i < n
      ensures s[i] == t[i]
    {
      assert a[i] == a[..n][i] == b[..n][i] == b[i];
    }
    assert s[..n] == t[..n];
    LeqAt(s, t, n);
    LeqReflexive(t);
  }

  lemma PrefixPrecedes(a: string, b: string)
    requires a < b
    ensures Precedes(Ascii(a), Ascii(b))
  {
    assert Ascii(a) <= Ascii(b);
    PrefixLeq(Ascii(a), Ascii(b));
  }

  lemma {:induction false} AdjacentAscends(names: seq<Bytes>, i: nat, j: nat)
    requires i < j < |names| && forall k :: 0 <= k < |names| - 1 ==> Precedes(names[k], names[k + 1])
    ensures Precedes(names[i], names[j])
    decreases j
  {
    assert Precedes(names[j - 1], names[j]);
    if i < j - 1 {
      AdjacentAscends(names, i, j - 1);
      LeqTransitive(names[i], names[j - 1], names[j]);
      if names[i] == names[j] {
        LeqAntisymmetric(names[j - 1], names[j]);
      }
    }
  }

  lemma Whole(a: Bytes)
    ensures a + [] == a
  {}

  lemma FirstNamesAscend()
    ensures forall k :: 0 <= k < 5 ==> Precedes(JobNames()[k], JobNames()[k + 1])
  {
    var extra := Ascii(" (ubuntu-24.04-arm, ") + Ascii("aarch64-unknown-linux-gnu)");
    assert JobNames()[2] == Ascii("extra-native-package") + extra;
    Whole(JobNames()[0]);
    Whole(JobNames()[1]);
    Whole(JobNames()[3]);
    Whole(JobNames()[4]);
    Whole(JobNames()[5]);
    TextPrecedes("benchmark", [], "compiler-precise-hostile", [], 0);
    TextPrecedes("compiler-precise-hostile", [], "extra-native-package", extra, 0);
    TextPrecedes("extra-native-package", extra, "go", [], 0);
    PrefixPrecedes("go", "go-loader-scope (bigpkg)");
    TextPrecedes("go-loader-scope (bigpkg)", [], "go-loader-scope (fanout)", [], 17);
  }

  lemma LastNamesAscend()
    ensures forall k :: 5 <= k < 11 ==> Precedes(JobNames()[k], JobNames()[k + 1])
  {
    var macos, linker := Ascii("aarch64-apple-darwin)"), Ascii("x86_64-unknown-linux-gnu, ") + Ascii("-C linker-features=-lld)");
    assert JobNames()[7] == Ascii("integration (macos-15, ") + macos;
    assert JobNames()[8] == Ascii("integration (ubuntu-24.04, ") + linker;
    Whole(JobNames()[5]);
    Whole(JobNames()[6]);
    Whole(JobNames()[9]);
    Whole(JobNames()[10]);
    Whole(JobNames()[11]);
    TextPrecedes("go-loader-scope (fanout)", [], "go-macos", [], 3);
    TextPrecedes("go-macos", [], "integration (macos-15, ", macos, 0);
    TextPrecedes("integration (macos-15, ", macos, "integration (ubuntu-24.04, ", linker, 13);
    TextPrecedes("integration (ubuntu-24.04, ", linker, "rust", [], 0);
    TextPrecedes("rust", [], "web", [], 0);
    TextPrecedes("web", [], "windows-smoke", [], 1);
  }

  /** The pinned names really are in ascending order; otherwise no run could ever be admitted. */
  lemma JobNamesAscend()
    ensures StrictlyAscending(JobNames())
  {
    FirstNamesAscend();
    LastNamesAscend();
    var names := JobNames();
    forall i, j | 0 <= i < j < |names|
      ensures Leq(names[i], names[j]) && names[i] != names[j]
    {
      AdjacentAscends(names, i, j);
    }
  }
}
