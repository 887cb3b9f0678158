/**
 * The validity bitmap of an Arrow-style column (section "Validity bitmaps" of the
 * Apache Arrow Columnar Format): one bit per row, least significant bit first,
 * 1 for a value that is present and 0 for null.
 */
module NullBitmap {

  /** Bit k of byte b, least significant bit first. */
  predicate BitOf(b: bv8, k: nat)
    requires k < 8
  {
    (b >> k) & 1 == 1
  }

  /** Row i is not null: bit i % 8 of byte i / 8 is set. */
  predicate Bit(bm: seq<bv8>, i: nat)
    requires i < 8 * |bm|
  {
    BitOf(bm[i / 8], i % 8)
  }

  /** Go's `byte((1 << m) - 1)`: the m lowest bits; with m == 8 the shift wraps to 0 and the mask is 0xFF. */
  function LowMask(m: nat): (r: bv8)
    requires m <= 8
    ensures forall k: nat | k < 8 :: BitOf(r, k) == (k < m)
  {
    ((1 as bv8) << m) - 1
  }

  /** Go's `byte(1 << k)`: only bit k. */
  function SingleBit(k: nat): (r: bv8)
    requires k < 8
    ensures forall j: nat | j < 8 :: BitOf(r, j) == (j == k)
  {
    (1 as bv8) << k
  }

  lemma OrBits(a: bv8, b: bv8)
    ensures forall k: nat | k < 8 :: BitOf(a | b, k) == (BitOf(a, k) || BitOf(b, k))
  {
  }

  lemma AndBits(a: bv8, b: bv8)
    ensures forall k: nat | k < 8 :: BitOf(a & b, k) == (BitOf(a, k) && BitOf(b, k))
  {
  }

  lemma ConstBits()
    ensures forall k: nat | k < 8 :: BitOf(0xFF, k) && !BitOf(0, k)
  {
  }

  /** A byte is determined by its eight bits. */
  lemma ByteExt(x: bv8, y: bv8)
    requires forall k: nat | k < 8 :: BitOf(x, k) == BitOf(y, k)
    ensures x == y
  {
    assert BitOf(x, 0) == BitOf(y, 0);
    assert BitOf(x, 1) == BitOf(y, 1);
    assert BitOf(x, 2) == BitOf(y, 2);
    assert BitOf(x, 3) == BitOf(y, 3);
    assert BitOf(x, 4) == BitOf(y, 4);
    assert BitOf(x, 5) == BitOf(y, 5);
    assert BitOf(x, 6) == BitOf(y, 6);
    assert BitOf(x, 7) == BitOf(y, 7);
  }

  /** Writing byte q changes exactly the bits of rows 8q .. 8q+7. */
  lemma BitUpdate(bm: seq<bv8>, q: nat, x: bv8)
    requires q < |bm|
    ensures forall i: nat | i < 8 * |bm| ::
      Bit(bm[q := x], i) == if i / 8 == q then BitOf(x, i % 8) else Bit(bm, i)
  {
  }

  /** The byte of eight not-null rows, or of eight null rows. */
  function FillByte(notNull: bool): (r: bv8)
    ensures forall k: nat | k < 8 :: BitOf(r, k) == notNull
  {
    ConstBits();
    if notNull then 0xFF else 0
  }

  /** Appending a byte adds the bits of rows 8|bm| .. 8|bm|+7 and keeps the others. */
  lemma BitAppend(bm: seq<bv8>, x: bv8)
    ensures forall i: nat | i < 8 * |bm| + 8 ::
      Bit(bm + [x], i) == if i < 8 * |bm| then Bit(bm, i) else BitOf(x, i - 8 * |bm|)
  {
    forall i: nat | i < 8 * |bm| + 8
      ensures Bit(bm + [x], i) == if i < 8 * |bm| then Bit(bm, i) else BitOf(x, i - 8 * |bm|)
    {
      if i >= 8 * |bm| {
        assert i / 8 == |bm| && i % 8 == i - 8 * |bm|;
      }
    }
  }

  /** Row j of bm[q := x]: a bit of x when j lies in byte q, the old bit otherwise. */
  lemma RowAfterWrite(bm: seq<bv8>, q: nat, x: bv8, bm2: seq<bv8>, j: nat)
    requires q < |bm| && bm2 == bm[q := x] && j < 8 * |bm|
    ensures Bit(bm2, j) == if j / 8 == q then BitOf(x, j % 8) else Bit(bm, j)
  {
  }

  /** `bm[i >> 3] |= 1 << (i & 7)` sets the bit of row i and no other. */
  lemma SetBit(bm: seq<bv8>, i: nat, bm2: seq<bv8>)
    requires i < 8 * |bm| && bm2 == bm[i / 8 := bm[i / 8] | SingleBit(i % 8)]
    ensures |bm2| == |bm| && forall j: nat | j < 8 * |bm| :: Bit(bm2, j) == (j == i || Bit(bm, j))
  {
    var x := bm[i / 8] | SingleBit(i % 8);
    OrBits(bm[i / 8], SingleBit(i % 8));
    forall j: nat | j < 8 * |bm|
      ensures Bit(bm2, j) == (j == i || Bit(bm, j))
    {
      RowAfterWrite(bm, i / 8, x, bm2, j);
      if j / 8 == i / 8 {
        assert (j % 8 == i % 8) == (j == i);
      }
    }
  }

  lemma ClearByteBit(b: bv8, k: nat)
    requires k < 8
    ensures forall j: nat | j < 8 :: BitOf(b & !SingleBit(k), j) == (j != k && BitOf(b, j))
  {
  }

  /** `bm[i >> 3] &= ^(1 << (i & 7))` clears the bit of row i and no other. */
  lemma ClearBit(bm: seq<bv8>, i: nat, bm2: seq<bv8>)
    requires i < 8 * |bm| && bm2 == bm[i / 8 := bm[i / 8] & !SingleBit(i % 8)]
    ensures |bm2| == |bm| && forall j: nat | j < 8 * |bm| :: Bit(bm2, j) == (j != i && Bit(bm, j))
  {
    var x := bm[i / 8] & !SingleBit(i % 8);
    ClearByteBit(bm[i / 8], i % 8);
    forall j: nat | j < 8 * |bm|
      ensures Bit(bm2, j) == (j != i && Bit(bm, j))
    {
      RowAfterWrite(bm, i / 8, x, bm2, j);
      if j / 8 == i / 8 {
        assert (j % 8 == i % 8) == (j == i);
      }
    }
  }

  /**
   * Writing a byte of eight notNull bits over rows lo .. lo+7 (lo a multiple
   * of 8) extends a run of notNull rows that starts at begin and ends at lo.
   */
  lemma WriteRunByte(bm0: seq<bv8>, bm: seq<bv8>, begin: nat, lo: nat, v: bv8, notNull: bool, bm2: seq<bv8>)
    requires |bm| == |bm0| && begin <= lo && lo % 8 == 0 && lo + 8 <= 8 * |bm|
    requires forall k: nat | k < 8 :: BitOf(v, k) == notNull
    requires forall j: nat | j < 8 * |bm| :: Bit(bm, j) == if begin <= j < lo then notNull else Bit(bm0, j)
    requires bm2 == bm[lo / 8 := v]
    ensures |bm2| == |bm0| && forall j: nat | j < 8 * |bm2| :: Bit(bm2, j) == if begin <= j < lo + 8 then notNull else Bit(bm0, j)
  {
    forall j: nat | j < 8 * |bm2|
      ensures Bit(bm2, j) == if begin <= j < lo + 8 then notNull else Bit(bm0, j)
    {
      RowAfterWrite(bm, lo / 8, v, bm2, j);
      if j / 8 == lo / 8 {
        assert lo <= j < lo + 8;
      } else {
        assert !(lo <= j < lo + 8);
      }
    }
  }

  lemma OrHighByte(b: bv8, r: nat)
    requires r < 8
    ensures forall j: nat | j < 8 :: BitOf(b | !LowMask(r), j) == (j >= r || BitOf(b, j))
  {
  }

  lemma AndLowByte(b: bv8, m: nat)
    requires m <= 8
    ensures forall j: nat | j < 8 :: BitOf(b & LowMask(m), j) == (j < m && BitOf(b, j))
  {
  }

  /** `bm[n / 8] |= ^((1 << (n % 8)) - 1)` sets the bits of rows n .. 8 * (n / 8) + 7. */
  lemma SetFrom(bm: seq<bv8>, n: nat, bm2: seq<bv8>)
    requires n < 8 * |bm| && bm2 == bm[n / 8 := bm[n / 8] | !LowMask(n % 8)]
    ensures |bm2| == |bm| && forall j: nat | j < 8 * |bm| :: Bit(bm2, j) == ((j / 8 == n / 8 && j >= n) || Bit(bm, j))
  {
    var x := bm[n / 8] | !LowMask(n % 8);
    OrHighByte(bm[n / 8], n % 8);
    forall j: nat | j < 8 * |bm|
      ensures Bit(bm2, j) == ((j / 8 == n / 8 && j >= n) || Bit(bm, j))
    {
      RowAfterWrite(bm, n / 8, x, bm2, j);
      if j / 8 == n / 8 {
        assert (j % 8 >= n % 8) == (j >= n);
      }
    }
  }

  /**
   * `bm[len(bm) - 1] &= byte(1 << (8 - red)) - 1`, with t = 8 * len(bm) - red
   * the new row count, clears the bits of rows t and above.
   */
  lemma ClearFrom(bm: seq<bv8>, t: nat, bm2: seq<bv8>)
    requires |bm| > 0 && 8 * (|bm| - 1) < t <= 8 * |bm|
    requires bm2 == bm[|bm| - 1 := bm[|bm| - 1] & LowMask(t - 8 * (|bm| - 1))]
    ensures |bm2| == |bm| && forall j: nat | j < 8 * |bm| :: Bit(bm2, j) == (j < t && Bit(bm, j))
  {
    var q := |bm| - 1;
    var x := bm[q] & LowMask(t - 8 * q);
    AndLowByte(bm[q], t - 8 * q);
    forall j: nat | j < 8 * |bm|
      ensures Bit(bm2, j) == (j < t && Bit(bm, j))
    {
      RowAfterWrite(bm, q, x, bm2, j);
      if j / 8 == q {
        assert (j % 8 < t - 8 * q) == (j < t);
      }
    }
  }

  /**
   * reconstruct's clean-up for t rows: cut the bitmap to ceil(t / 8) bytes and
   * clear the bits after row t - 1 in the last one. The first t bits survive.
   */
  lemma TrimBitmap(bm: seq<bv8>, t: nat, bm2: seq<bv8>)
    requires (t + 7) / 8 <= |bm|
    requires bm2 == if t % 8 != 0 then bm[..(t + 7) / 8][t / 8 := bm[t / 8] & LowMask(t % 8)] else bm[..(t + 7) / 8]
    ensures Canonical(bm2, t) && forall k: nat | k < t :: Bit(bm2, k) == Bit(bm, k)
  {
    var bm1 := bm[..(t + 7) / 8];
    assert forall k: nat | k < 8 * |bm1| :: Bit(bm1, k) == Bit(bm, k);
    if t % 8 != 0 {
      assert t - 8 * (|bm1| - 1) == t % 8;
      ClearFrom(bm1, t, bm2);
    }
  }

  /**
   * The bitmap invariant for n rows: exactly ceil(n / 8) bytes, and every
   * padding bit after the last row is 0.
   */
  ghost predicate Canonical(bm: seq<bv8>, n: nat)
  {
    |bm| == (n + 7) / 8 &&
    forall i: nat | n <= i < 8 * |bm| :: !Bit(bm, i)
  }

  /** The not-null flags of the first n rows. */
  ghost function Flags(bm: seq<bv8>, n: nat): seq<bool>
    requires n <= 8 * |bm|
  {
    seq(n, i requires 0 <= i < n => Bit(bm, i))
  }

  /**
   * bm2 is the canonical bitmap of n + k rows whose first n rows keep their
   * flags from bm and whose k new rows all have the flag notNull.
   */
  ghost predicate AppendedSame(bm: seq<bv8>, n: nat, bm2: seq<bv8>, k: nat, notNull: bool)
    requires n <= 8 * |bm|
  {
    Canonical(bm2, n + k) &&
    (forall i: nat | i < n :: Bit(bm2, i) == Bit(bm, i)) &&
    (forall i: nat | n <= i < n + k :: Bit(bm2, i) == notNull)
  }

  /** k whole bytes, all ones for not-null rows and all zeros for null ones. */
  function FillBytes(k: nat, notNull: bool): (r: seq<bv8>)
    ensures |r| == k
    ensures forall i: nat | i < 8 * k :: Bit(r, i) == notNull
  {
    ConstBits();
    seq(k, _ => if notNull then 0xFF else 0)
  }

  /**
   * The bitmap resize leaves for n rows that all have the flag notNull:
   * ceil(n / 8) filled bytes, the last one cut down to the rows it holds.
   */
  function UniformBitmap(n: nat, notNull: bool): (r: seq<bv8>)
    ensures Canonical(r, n) && forall i: nat | i < n :: Bit(r, i) == notNull
  {
    var bm := FillBytes((n + 7) / 8, notNull);
    if notNull && n % 8 != 0 then
      var q := |bm| - 1;
      BitUpdate(bm, q, LowMask(n % 8));
      assert forall i: nat | i < 8 * |bm| :: i / 8 == q ==> (i % 8 < n % 8 <==> i < n);
      bm[q := LowMask(n % 8)]
    else
      bm
  }

  /** Padding a canonical bitmap with FillBytes keeps the old rows' bits. */
  lemma PadBits(bm0: seq<bv8>, n: nat, k: nat, notNull: bool)
    requires Canonical(bm0, n)
    ensures var bm1 := bm0 + FillBytes(k, notNull);
      forall i: nat | i < 8 * |bm1| :: Bit(bm1, i) == if i < n then Bit(bm0, i) else (i >= 8 * |bm0| && notNull)
  {
    var f := FillBytes(k, notNull);
    var bm1 := bm0 + f;
    forall i: nat | i < 8 * |bm1|
      ensures Bit(bm1, i) == if i < n then Bit(bm0, i) else (i >= 8 * |bm0| && notNull)
    {
      if i < 8 * |bm0| {
        assert bm1[i / 8] == bm0[i / 8];
        assert Bit(bm1, i) == Bit(bm0, i);
        assert i >= n ==> !Bit(bm0, i);
      } else {
        var j: nat := i - 8 * |bm0|;
        assert i / 8 == |bm0| + j / 8 && i % 8 == j % 8;
        assert bm1[i / 8] == f[j / 8];
        assert Bit(f, j) == notNull;
      }
    }
  }

  /**
   * appendMultiSameNullBitmap with notNull, first half: after padding with
   * whole 0xFF bytes, setting the rest of row n's byte makes every bit from
   * row n on a 1.
   */
  lemma FillOnes(bm0: seq<bv8>, n: nat, bm1: seq<bv8>, num: nat, bm2: seq<bv8>)
    requires Canonical(bm0, n) && (num > 0 || n % 8 != 0)
    requires |bm1| == (n + num + 7) / 8
    requires forall i: nat | i < 8 * |bm1| :: Bit(bm1, i) == if i < n then Bit(bm0, i) else i >= 8 * |bm0|
    requires n / 8 < |bm1| && bm2 == bm1[n / 8 := bm1[n / 8] | !LowMask(n % 8)]
    ensures |bm2| > 0 && 8 * (|bm2| - 1) < n + num <= 8 * |bm2|
    ensures forall i: nat | i < 8 * |bm2| :: Bit(bm2, i) == (i < n ==> Bit(bm0, i))
  {
    SetFrom(bm1, n, bm2);
    forall i: nat | i < 8 * |bm2|
      ensures Bit(bm2, i) == (i < n ==> Bit(bm0, i))
    {
      if i >= n && i / 8 != n / 8 {
        assert i >= 8 * |bm0|;
        assert Bit(bm1, i);
      }
    }
  }

  /**
   * Second half: clearing the bits past row n + num - 1 in the last byte
   * leaves exactly num new set bits.
   */
  lemma ClearPastOnes(bm0: seq<bv8>, n: nat, num: nat, bm2: seq<bv8>, bm3: seq<bv8>)
    requires Canonical(bm0, n) && |bm2| > 0 && 8 * (|bm2| - 1) < n + num <= 8 * |bm2|
    requires forall i: nat | i < 8 * |bm2| :: Bit(bm2, i) == (i < n ==> Bit(bm0, i))
    requires bm3 == bm2[|bm2| - 1 := bm2[|bm2| - 1] & LowMask(8 - (8 * |bm2| - n - num))]
    ensures AppendedSame(bm0, n, bm3, num, true)
  {
    var t := n + num;
    assert 8 - (8 * |bm2| - n - num) == t - 8 * (|bm2| - 1);
    ClearFrom(bm2, t, bm3);
    assert |bm3| == (t + 7) / 8;
    assert forall i: nat | i < 8 * |bm3| :: Bit(bm3, i) == (i < t && (i < n ==> Bit(bm0, i)));
  }

  /**
   * A bitmap whose bytes are the ANDs of a's and b's bytes has a row set
   * exactly where both have it; so it keeps a's zero padding.
   */
  lemma AndBitmap(a: seq<bv8>, b: seq<bv8>, r: seq<bv8>, n: nat)
    requires |a| == |b| == |r| && forall q | 0 <= q < |r| :: r[q] == a[q] & b[q]
    ensures forall i: nat | i < 8 * |r| :: Bit(r, i) == (Bit(a, i) && Bit(b, i))
    ensures Canonical(a, n) ==> Canonical(r, n)
  {
    forall i: nat | i < 8 * |r|
      ensures Bit(r, i) == (Bit(a, i) && Bit(b, i))
    {
      AndBits(a[i / 8], b[i / 8]);
    }
  }

  /** A canonical bitmap is determined by its row flags: nothing else is stored in it. */
  lemma CanonicalUnique(a: seq<bv8>, b: seq<bv8>, n: nat)
    requires Canonical(a, n) && Canonical(b, n)
    requires Flags(a, n) == Flags(b, n)
    ensures a == b
  {
    forall q: nat | q < |a|
      ensures a[q] == b[q]
    {
      forall k: nat | k < 8
        ensures BitOf(a[q], k) == BitOf(b[q], k)
      {
        var i := 8 * q + k;
        assert i / 8 == q && i % 8 == k;
        assert Bit(a, i) == BitOf(a[q], k) && Bit(b, i) == BitOf(b[q], k);
        if i < n {
          assert Flags(a, n)[i] == Flags(b, n)[i];
        } else {
          assert !Bit(a, i) && !Bit(b, i);
        }
      }
      ByteExt(a[q], b[q]);
    }
  }

  /** Number of set bits among the k lowest bits of b. */
  function CountOnes(b: bv8, k: nat): (r: nat)
    requires k <= 8
    ensures r <= k
  {
    if k == 0 then 0 else CountOnes(b, k - 1) + (if BitOf(b, k - 1) then 1 else 0)
  }

  /** Go's `bits.OnesCount8`: the number of set bits of a byte. */
  function OnesCount8(b: bv8): (r: nat)
    ensures r <= 8
  {
    CountOnes(b, 8)
  }

  /** Number of null rows among rows lo .. hi-1. */
  ghost function NullsIn(bm: seq<bv8>, lo: nat, hi: nat): (r: nat)
    requires lo <= hi <= 8 * |bm|
    decreases hi - lo
  {
    if lo == hi then 0 else NullsIn(bm, lo, hi - 1) + (if Bit(bm, hi - 1) then 0 else 1)
  }

  /** Counting nulls over a range splits at any midpoint. */
  lemma {:induction false} NullsInSplit(bm: seq<bv8>, lo: nat, mid: nat, hi: nat)
    requires lo <= mid <= hi <= 8 * |bm|
    ensures NullsIn(bm, lo, hi) == NullsIn(bm, lo, mid) + NullsIn(bm, mid, hi)
    decreases hi - mid
  {
    if mid < hi {
      NullsInSplit(bm, lo, mid, hi - 1);
    }
  }

  /** The first k rows covered by byte q hold k - CountOnes(bm[q], k) nulls. */
  lemma {:induction false} NullsInByte(bm: seq<bv8>, q: nat, k: nat)
    requires q < |bm| && k <= 8
    ensures NullsIn(bm, 8 * q, 8 * q + k) == k - CountOnes(bm[q], k)
  {
    if k > 0 {
      NullsInByte(bm, q, k - 1);
      var i := 8 * q + k - 1;
      assert i / 8 == q && i % 8 == k - 1;
    }
  }

  /** A whole byte holds 8 - OnesCount8 nulls: the step nullCount takes per byte. */
  lemma WholeByteNulls(bm: seq<bv8>, q: nat)
    requires q < |bm|
    ensures NullsIn(bm, 8 * q, 8 * q + 8) == 8 - OnesCount8(bm[q])
  {
    NullsInByte(bm, q, 8);
  }
}
