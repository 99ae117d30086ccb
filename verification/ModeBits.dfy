/** What the computations on file modes mean, bit by bit. */
module ModeBits {
  import opened FileTree
  import opened Bytes
  import opened Division
  import Zip = ZipExtract
  import Pack = PackExtract

  /** Bit `k` of a number. */
  predicate Bit(n: nat, k: nat) {
    if k == 0 then n % 2 == 1 else Bit(n / 2, k - 1)
  }

  /** `mode & 0o777` keeps the low nine bits and no other. */
  lemma {:induction false} LowBits(n: nat, m: nat, w: nat, k: nat)
    requires m > 0 && m == Pow2(w)
    ensures Bit(n % m, k) <==> k < w && Bit(n, k)
    decreases w + k
  {
    if w == 0 {
      ZeroBit(k);
    } else {
      var half := Pow2(w - 1);
      HalfOfRest(n, half);
      if k > 0 {
        LowBits(n / 2, half, w - 1, k - 1);
      }
    }
  }

  function Pow2(w: nat): (m: nat)
    ensures m > 0
  {
    if w == 0 then 1 else 2 * Pow2(w - 1)
  }

  lemma {:induction false} ZeroBit(k: nat)
    ensures !Bit(0, k)
  {
    if k > 0 {
      ZeroBit(k - 1);
    }
  }

  lemma HalfOfRest(n: nat, half: nat)
    requires half > 0
    ensures (n % (2 * half)) / 2 == (n / 2) % half && (n % (2 * half)) % 2 == n % 2
  {
    var q, r := n / (2 * half), n % (2 * half);
    assert n == q * (2 * half) + r;
    assert q * (2 * half) == 2 * (q * half);
    assert n / 2 == q * half + r / 2;
    DivisionIs(n / 2, half, q, r / 2);
  }

  /** The three mode computations, bit by bit: a file keeps the nine permission
      bits; a directory keeps the six lower ones and gets all of the owner's;
      executable means that one of the three execute bits is set. */
  lemma ModeBits(mode: nat, k: nat)
    ensures Bit(FileMode(mode), k) <==> k < 9 && Bit(mode, k)
    ensures Bit(DirMode(mode), k) <==> (k < 6 && Bit(mode, k)) || 6 <= k < 9
    ensures Executable(mode) <==> Bit(mode, 0) || Bit(mode, 3) || Bit(mode, 6)
  {
    assert Pow2(9) == 512 && Pow2(6) == 64;
    LowBits(mode, 512, 9, k);
    LowBits(mode, 64, 6, k);
    OwnerBits(mode % 64, k);
    LowBits(mode % 64, 64, 6, k);
    BitIs(mode, 0);
    BitIs(mode, 3);
    BitIs(mode, 6);
    assert Pow2(3) == 8;
  }

  lemma OwnerBits(low: nat, k: nat)
    requires low < 64
    ensures Bit(448 + low, k) <==> (k < 6 && Bit(low, k)) || 6 <= k < 9
  {
    HighBits(7, 6, low, k);
    LowBits(low, 64, 6, k);
    SevenBits(k);
  }

  lemma SevenBits(k: nat)
    ensures k >= 6 ==> (Bit(7, k - 6) <==> k < 9)
  {
    if k >= 9 {
      assert Bit(7, k - 6) == Bit(3, k - 7) == Bit(1, k - 8) == Bit(0, k - 9);
      ZeroBit(k - 9);
    }
  }

  /** A number made of two bit fields. */
  lemma {:induction false} HighBits(high: nat, w: nat, low: nat, k: nat)
    requires low < Pow2(w)
    ensures Bit(high * Pow2(w) + low, k) <==> if k < w then Bit(low, k) else Bit(high, k - w)
    decreases w
  {
    if w > 0 {
      var half := Pow2(w - 1);
      assert high * Pow2(w) == 2 * (high * half);
      assert (high * Pow2(w) + low) % 2 == low % 2 && (high * Pow2(w) + low) / 2 == high * half + low / 2;
      if k > 0 {
        HighBits(high, w - 1, low / 2, k - 1);
      }
    }
  }

  lemma {:induction false} BitIs(n: nat, k: nat)
    ensures Bit(n, k) <==> n / Pow2(k) % 2 == 1
    decreases k
  {
    if k > 0 {
      BitIs(n / 2, k - 1);
      NestedDivision(n, 2, Pow2(k - 1));
    }
  }

  /** A ZIP member may be a file when its type bits are zero or a regular file's:
      at most the highest of the four is set. */
  lemma RegularTypeBits(mode: nat)
    ensures Zip.RegularType(Some(mode)) <==> !Bit(mode, 12) && !Bit(mode, 13) && !Bit(mode, 14)
    ensures Zip.RegularType(None)
  {
    TypeBits(mode);
    FourBits(mode / 4096 % 16);
  }

  /** Which numbers below 16 have which of their bits set. */
  lemma FourBits(n: nat)
    requires n < 16
    ensures n == 0 || n == 8 <==> n % 2 == 0 && n / 2 % 2 == 0 && n / 4 % 2 == 0
    ensures n in {0, 4, 8} <==> n % 2 == 0 && n / 2 % 2 == 0 && !(n / 4 % 2 == 1 && n / 8 == 1)
  {}

  /** A pack entry must have no type, or be a directory or a regular file. */
  lemma KnownTypeBits(mode: nat)
    ensures Pack.KnownType(Some(mode)) <==> !Bit(mode, 12) && !Bit(mode, 13) && !(Bit(mode, 14) && Bit(mode, 15))
    ensures Pack.KnownType(None)
  {
    TypeBits(mode);
    FourBits(mode / 4096 % 16);
  }

  lemma TypeBits(mode: nat)
    ensures var n := mode / 4096 % 16;
            && (Bit(mode, 12) <==> n % 2 == 1) && (Bit(mode, 13) <==> n / 2 % 2 == 1)
            && (Bit(mode, 14) <==> n / 4 % 2 == 1) && (Bit(mode, 15) <==> n / 8 == 1)
  {
    BitIs(mode, 12);
    BitIs(mode, 13);
    BitIs(mode, 14);
    BitIs(mode, 15);
    assert Pow2(12) == 4096;
    assert Pow2(13) == 8192 && Pow2(14) == 16384 && Pow2(15) == 32768;
    LowFour(mode, mode / 4096);
  }

  lemma LowFour(mode: nat, t: nat)
    requires t == mode / 4096
    ensures mode / 8192 == t / 2 && mode / 16384 == t / 4 && mode / 32768 == t / 8
    ensures var n := t % 16;
            n % 2 == t % 2 && n / 2 % 2 == t / 2 % 2 && n / 4 % 2 == t / 4 % 2 && n / 8 == t / 8 % 2
  {
    NestedDivision(mode, 4096, 2);
    NestedDivision(mode, 4096, 4);
    NestedDivision(mode, 4096, 8);
    Nibble(t / 16, t % 16);
  }

  lemma Nibble(m: nat, n: nat)
    requires n < 16
    ensures var t := 16 * m + n;
            n % 2 == t % 2 && n / 2 % 2 == t / 2 % 2 && n / 4 % 2 == t / 4 % 2 && n / 8 == t / 8 % 2
  {
    var t := 16 * m + n;
    EvenRest(8 * m, n);
    DivisionIs(t, 2, 8 * m + n / 2, n % 2);
    EvenRest(4 * m, n / 2);
    UpperBits(m, n);
  }

  lemma UpperBits(m: nat, n: nat)
    requires n < 16
    ensures (16 * m + n) / 4 % 2 == n / 4 % 2 && (16 * m + n) / 8 % 2 == n / 8
  {
    DivisionIs(16 * m + n, 4, 4 * m + n / 4, n % 4);
    EvenRest(2 * m, n / 4);
    DivisionIs(16 * m + n, 8, 2 * m + n / 8, n % 8);
    EvenRest(m, n / 8);
  }

  lemma EvenRest(a: nat, b: nat)
    ensures (2 * a + b) % 2 == b % 2
  {
    DivisionIs(2 * a + b, 2, a + b / 2, b % 2);
  }
}
