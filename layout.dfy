/**
 * The buffers of a column as values: the layout invariants of the Arrow
 * "Variable-size Binary Layout" (offsets) and of fixed-width columns, the
 * abstraction of the buffers as a sequence of cells.
 */
module ColumnLayout {
  import opened Wrappers
  import opened NullBitmap

  /** One row as the buffers hold it: its not-null flag and its raw bytes. */
  datatype Cell = Cell(notNull: bool, raw: seq<Byte>)

  /** One row as a reader sees it: None for null, otherwise the raw bytes. */
  type Row = Option<seq<Byte>>

  /** math.MaxUint32, the largest element length a column may export. */
  const MaxUint32: int := 0xFFFF_FFFF

  function Zeros(k: nat): (r: seq<Byte>)
    ensures |r| == k && forall i | 0 <= i < k :: r[i] == 0
  {
    seq(k, _ => 0)
  }

  lemma {:induction false} MulLe(a: nat, b: nat, w: nat)
    requires a <= b
    ensures a * w <= b * w
  {
    if w > 0 {
      MulLe(a, b, w - 1);
      assert a * w == a * (w - 1) + a;
      assert b * w == b * (w - 1) + b;
    }
  }

  /** Element i of a fixed-width buffer holding n elements lies inside it. */
  lemma BlockInRange(i: nat, n: nat, w: nat)
    requires i < n
    ensures i * w + w <= n * w
  {
    MulLe(i + 1, n, w);
    assert (i + 1) * w == i * w + w;
  }

  /**
   * Offsets of a variable-length column with n rows over dataLen bytes:
   * n + 1 entries, starting at 0, never decreasing, ending at dataLen.
   */
  ghost predicate OffsetsOk(offs: seq<int>, n: nat, dataLen: int)
  {
    |offs| == n + 1 && offs[0] == 0 && offs[n] == dataLen &&
    forall i, j | 0 <= i <= j <= n :: offs[i] <= offs[j]
  }

  /**
   * The data buffer's shape: a fixed-length column (elemBuf non-nil) holds
   * n elements of |elemBuf| bytes each; a variable-length one is described
   * by its offsets. The first offset, where there is one, is always 0.
   */
  ghost predicate DataOk(n: nat, offs: seq<int>, data: seq<Byte>, elemBuf: Option<seq<Byte>>)
  {
    (|offs| > 0 ==> offs[0] == 0) &&
    match elemBuf
    case Some(e) => |data| == n * |e|
    case None => OffsetsOk(offs, n, |data|)
  }

  /** All layout invariants of a column with n rows. */
  ghost predicate Wellformed(n: nat, bm: seq<bv8>, offs: seq<int>, data: seq<Byte>, elemBuf: Option<seq<Byte>>)
  {
    Canonical(bm, n) && DataOk(n, offs, data, elemBuf)
  }

  /** The raw bytes of row i (GetRaw): its element in a fixed-length column, its offsets' range otherwise. */
  function RawOf(n: nat, offs: seq<int>, data: seq<Byte>, elemBuf: Option<seq<Byte>>, i: nat): (r: seq<Byte>)
    requires DataOk(n, offs, data, elemBuf) && i < n
    ensures elemBuf.Some? ==> |r| == |elemBuf.value|
  {
    match elemBuf
    case Some(e) =>
      BlockInRange(i, n, |e|);
      data[i * |e| .. i * |e| + |e|]
    case None =>
      data[offs[i] .. offs[i + 1]]
  }

  /** The raw bytes of every row. */
  ghost function RawsOf(n: nat, offs: seq<int>, data: seq<Byte>, elemBuf: Option<seq<Byte>>): (r: seq<seq<Byte>>)
    requires DataOk(n, offs, data, elemBuf)
    ensures |r| == n
  {
    seq(n, i requires 0 <= i < n => RawOf(n, offs, data, elemBuf, i))
  }

  /** The column's rows as cells. */
  ghost function CellsOf(n: nat, bm: seq<bv8>, offs: seq<int>, data: seq<Byte>, elemBuf: Option<seq<Byte>>): (r: seq<Cell>)
    requires Wellformed(n, bm, offs, data, elemBuf)
    ensures |r| == n
  {
    Zip(Flags(bm, n), RawsOf(n, offs, data, elemBuf))
  }

  function RowOf(c: Cell): Row
  {
    if c.notNull then Some(c.raw) else None
  }

  /** The rows a reader sees: null rows lose their bytes. */
  function RowsOf(cells: seq<Cell>): seq<Row>
  {
    seq(|cells|, i requires 0 <= i < |cells| => RowOf(cells[i]))
  }

  lemma RowsOfAppend(a: seq<Cell>, b: seq<Cell>)
    ensures RowsOf(a + b) == RowsOf(a) + RowsOf(b)
  {
  }

  /** The bytes a null row gets when it is appended: a copy of elemBuf, or none. */
  function NullRaw(elemBuf: Option<seq<Byte>>): seq<Byte>
  {
    if elemBuf.Some? then elemBuf.value else []
  }

  /** Two elemBuf values describe the same column type: both nil, or both of the same width. */
  predicate SameKind(a: Option<seq<Byte>>, b: Option<seq<Byte>>)
  {
    a.Some? == b.Some? && (a.Some? ==> |a.value| == |b.value|)
  }

  /** Raws and flags side by side. */
  function Zip(flags: seq<bool>, raws: seq<seq<Byte>>): (r: seq<Cell>)
    requires |flags| == |raws|
    ensures |r| == |flags|
  {
    seq(|flags|, i requires 0 <= i < |flags| => Cell(flags[i], raws[i]))
  }

  lemma ZipAppend(f1: seq<bool>, r1: seq<seq<Byte>>, f2: seq<bool>, r2: seq<seq<Byte>>)
    requires |f1| == |r1| && |f2| == |r2|
    ensures Zip(f1 + f2, r1 + r2) == Zip(f1, r1) + Zip(f2, r2)
  {
  }

  /** Appending one element of the column's width to a fixed-length buffer adds one raw value. */
  lemma RawsAppendFixed(n: nat, offs: seq<int>, data: seq<Byte>, eb: Option<seq<Byte>>, e: seq<Byte>)
    requires DataOk(n, offs, data, eb) && eb.Some? && |e| == |eb.value|
    ensures DataOk(n + 1, offs, data + e, eb)
    ensures RawsOf(n + 1, offs, data + e, eb) == RawsOf(n, offs, data, eb) + [e]
  {
    var w := |e|;
    assert (n + 1) * w == n * w + w;
    var a := RawsOf(n + 1, offs, data + e, eb);
    var b := RawsOf(n, offs, data, eb) + [e];
    forall i | 0 <= i < n + 1
      ensures a[i] == b[i]
    {
      BlockInRange(i, n + 1, w);
      if i < n {
        BlockInRange(i, n, w);
        PrefixSlice(data, e, i * w, i * w + w);
      } else {
        assert i * w == |data|;
        assert (data + e)[|data| .. |data| + w] == e;
      }
    }
  }

  /** A slice that lies inside a lies inside a + b too. */
  lemma PrefixSlice(a: seq<Byte>, b: seq<Byte>, lo: int, hi: int)
    requires 0 <= lo <= hi <= |a|
    ensures (a + b)[lo..hi] == a[lo..hi]
  {
    forall i | 0 <= i < hi - lo
      ensures (a + b)[lo..hi][i] == a[lo..hi][i]
    {
      assert (a + b)[lo + i] == a[lo + i];
    }
  }

  /** Appending one row's bytes and its end offset to a variable-length buffer adds one raw value. */
  lemma RawsAppendVar(n: nat, offs: seq<int>, data: seq<Byte>, e: seq<Byte>)
    requires DataOk(n, offs, data, None)
    ensures DataOk(n + 1, offs + [|data| + |e|], data + e, None)
    ensures RawsOf(n + 1, offs + [|data| + |e|], data + e, None) == RawsOf(n, offs, data, None) + [e]
  {
    var offs2 := offs + [|data| + |e|];
    var a := RawsOf(n + 1, offs2, data + e, None);
    var b := RawsOf(n, offs, data, None) + [e];
    forall i | 0 <= i < n + 1
      ensures a[i] == b[i]
    {
      if i < n {
        assert offs[i] <= offs[i + 1] <= |data|;
        PrefixSlice(data, e, offs[i], offs[i + 1]);
      } else {
        assert (data + e)[|data| .. |data| + |e|] == e;
      }
    }
  }

  /** A zeroed fixed-length buffer holds only zeroed elements. */
  lemma ZeroRaws(n: nat, offs: seq<int>, e: seq<Byte>)
    requires DataOk(n, offs, Zeros(n * |e|), Some(e))
    ensures RawsOf(n, offs, Zeros(n * |e|), Some(e)) == seq(n, _ => Zeros(|e|))
  {
    forall i | 0 <= i < n
      ensures RawOf(n, offs, Zeros(n * |e|), Some(e), i) == Zeros(|e|)
    {
      BlockInRange(i, n, |e|);
    }
  }

  /** Writing entry i and then cutting after it leaves the first i entries and the new one. */
  lemma UpdateTruncate(s: seq<int>, i: nat, v: int)
    requires i < |s|
    ensures s[i := v][..i + 1] == s[..i] + [v]
  {
  }

  /** Two sequences that agree from t on agree on every slice that starts at or after t. */
  lemma SliceOfSuffix(a: seq<Byte>, b: seq<Byte>, t: nat, lo: int, hi: int)
    requires |a| == |b| && t <= lo <= hi <= |a| && a[t..] == b[t..]
    ensures a[lo..hi] == b[lo..hi]
  {
    forall i | 0 <= i < hi - lo
      ensures a[lo..hi][i] == b[lo..hi][i]
    {
      assert a[lo + i] == a[t..][lo + i - t];
      assert b[lo + i] == b[t..][lo + i - t];
    }
  }

  /**
   * One step of packing rows into a variable-length buffer: row j starts at
   * tail and its bytes e follow the first j rows' bytes.
   */
  lemma PackStep(j: nat, tail: nat, offs: seq<int>, data: seq<Byte>, e: seq<Byte>, offs2: seq<int>, data2: seq<Byte>)
    requires j < |offs| && tail <= |data| && DataOk(j, offs[..j] + [tail], data[..tail], None)
    requires offs2 == offs[j := tail] && tail + |e| <= |data2| && data2[..tail + |e|] == data[..tail] + e
    ensures DataOk(j + 1, offs2[..j + 1] + [tail + |e|], data2[..tail + |e|], None)
    ensures RawsOf(j + 1, offs2[..j + 1] + [tail + |e|], data2[..tail + |e|], None) ==
              RawsOf(j, offs[..j] + [tail], data[..tail], None) + [e]
  {
    assert offs2[..j + 1] + [tail + |e|] == offs[..j] + [tail] + [|data[..tail]| + |e|];
    RawsAppendVar(j, offs[..j] + [tail], data[..tail], e);
  }

  /** Overwriting the bytes of variable-length row r with as many new bytes changes that raw value only. */
  lemma RawsReplaceVar(n: nat, offs: seq<int>, data: seq<Byte>, r: nat, e: seq<Byte>)
    requires DataOk(n, offs, data, None) && r < n && |e| == offs[r + 1] - offs[r]
    ensures offs[r] <= offs[r + 1]
    ensures var data2 := data[..offs[r]] + e + data[offs[r + 1]..];
      DataOk(n, offs, data2, None) && RawsOf(n, offs, data2, None) == RawsOf(n, offs, data, None)[r := e]
  {
    assert offs[r] <= offs[r + 1];
    var data2 := data[..offs[r]] + e + data[offs[r + 1]..];
    assert |data2| == |data|;
    forall i | 0 <= i < n && i != r
      ensures data2[offs[i] .. offs[i + 1]] == data[offs[i] .. offs[i + 1]]
    {
      assert offs[i] <= offs[i + 1];
      if i < r {
        assert offs[i + 1] <= offs[r];
      } else {
        assert offs[r + 1] <= offs[i];
      }
      SliceBesideSplice(data, offs[r], offs[r + 1], e, data2, offs[i], offs[i + 1]);
    }
    assert data2[offs[r] .. offs[r + 1]] == e;
  }

  /** Splicing e over data[a..b] keeps every slice that lies wholly before a or wholly after b. */
  lemma SliceBesideSplice(data: seq<Byte>, a: nat, b: nat, e: seq<Byte>, data2: seq<Byte>, lo: nat, hi: nat)
    requires a <= b <= |data| && |e| == b - a && data2 == data[..a] + e + data[b..]
    requires lo <= hi <= |data| && (hi <= a || b <= lo)
    ensures data2[lo..hi] == data[lo..hi]
  {
    forall k | lo <= k < hi
      ensures data2[k] == data[k]
    {
    }
  }

  /** Blocks i < r of width w end before block r starts. */
  lemma BlockBefore(i: nat, r: nat, w: nat)
    requires i < r
    ensures i * w + w <= r * w
  {
    MulLe(i + 1, r, w);
    assert (i + 1) * w == i * w + w;
  }

  /** Overwriting element r of a fixed-length buffer changes that raw value only. */
  lemma RawsReplaceFixed(n: nat, offs: seq<int>, data: seq<Byte>, eb: Option<seq<Byte>>, r: nat, e: seq<Byte>)
    requires DataOk(n, offs, data, eb) && eb.Some? && r < n && |e| == |eb.value|
    ensures r * |e| + |e| <= |data|
    ensures var data2 := data[..r * |e|] + e + data[r * |e| + |e|..];
      DataOk(n, offs, data2, eb) && RawsOf(n, offs, data2, eb) == RawsOf(n, offs, data, eb)[r := e]
  {
    var w := |e|;
    BlockInRange(r, n, w);
    var lo := r * w;
    var hi := lo + w;
    var data2 := data[..lo] + e + data[hi..];
    assert |data2| == |data|;
    assert data2[..lo] == data[..lo];
    assert data2[hi..] == data[hi..];
    assert data2[lo..hi] == e;
    assert DataOk(n, offs, data2, eb);
    forall i | 0 <= i < n && i != r
      ensures RawOf(n, offs, data2, eb, i) == RawOf(n, offs, data, eb, i)
    {
      BlockInRange(i, n, w);
      var a := i * w;
      if i < r {
        BlockBefore(i, r, w);
        assert data2[a .. a + w] == data2[..lo][a .. a + w];
      } else {
        BlockBefore(r, i, w);
        assert data2[a .. a + w] == data2[hi..][a - hi .. a - hi + w];
        assert data[a .. a + w] == data[hi..][a - hi .. a - hi + w];
      }
    }
  }

  /** The first t elements of a fixed-length buffer are its first t * width bytes. */
  lemma RawsTruncateFixed(n: nat, offs: seq<int>, data: seq<Byte>, eb: Option<seq<Byte>>, t: nat)
    requires DataOk(n, offs, data, eb) && eb.Some? && t <= n
    ensures t * |eb.value| <= |data|
    ensures DataOk(t, offs, data[..t * |eb.value|], eb)
    ensures RawsOf(t, offs, data[..t * |eb.value|], eb) == RawsOf(n, offs, data, eb)[..t]
  {
    var w := |eb.value|;
    MulLe(t, n, w);
    var m := t * w;
    var d := data[..m];
    assert DataOk(t, offs, d, eb);
    forall i | 0 <= i < t
      ensures RawOf(t, offs, d, eb, i) == RawOf(n, offs, data, eb, i)
    {
      BlockInRange(i, t, w);
      BlockInRange(i, n, w);
    }
  }

  /** Replacing one raw value replaces the raw part of that one cell. */
  lemma ZipUpdate(flags: seq<bool>, raws: seq<seq<Byte>>, r: nat, e: seq<Byte>)
    requires |flags| == |raws| && r < |raws|
    ensures Zip(flags, raws[r := e]) == Zip(flags, raws)[r := Cell(flags[r], e)]
  {
  }

  /** The cells with the flag of rows begin .. end-1 set to notNull and their bytes kept. */
  function SetFlags(cells: seq<Cell>, begin: int, end: int, notNull: bool): (r: seq<Cell>)
    ensures |r| == |cells|
    ensures forall j | 0 <= j < |r| :: r[j].raw == cells[j].raw
    ensures forall j | 0 <= j < |r| :: r[j].notNull == if begin <= j < end then notNull else cells[j].notNull
  {
    seq(|cells|, j requires 0 <= j < |cells| => if begin <= j < end then Cell(notNull, cells[j].raw) else cells[j])
  }

  /**
   * A bitmap that differs from a canonical one only in the bits of rows
   * begin .. end-1, all inside the column, gives the same cells with those
   * flags set.
   */
  lemma CellsReflag(n: nat, bm: seq<bv8>, bm2: seq<bv8>, offs: seq<int>, data: seq<Byte>, eb: Option<seq<Byte>>,
                    begin: int, end: int, notNull: bool)
    requires Wellformed(n, bm, offs, data, eb) && |bm2| == |bm| && end <= n
    requires forall j: nat | j < 8 * |bm2| :: Bit(bm2, j) == if begin <= j < end then notNull else Bit(bm, j)
    ensures Wellformed(n, bm2, offs, data, eb)
    ensures CellsOf(n, bm2, offs, data, eb) == SetFlags(CellsOf(n, bm, offs, data, eb), begin, end, notNull)
  {
  }

  /** Number of null rows. */
  function CountNulls(rows: seq<Row>): (r: nat)
    ensures r <= |rows|
  {
    if rows == [] then 0 else CountNulls(rows[..|rows| - 1]) + (if rows[|rows| - 1].None? then 1 else 0)
  }

  /** When row i is null exactly when bit i is 0, the zero bits among the first k rows count the null rows among them. */
  lemma {:induction false} NullsInMatch(bm: seq<bv8>, rows: seq<Row>, k: nat)
    requires k <= |rows| <= 8 * |bm|
    requires forall i | 0 <= i < |rows| :: rows[i].None? == !Bit(bm, i)
    ensures NullsIn(bm, 0, k) == CountNulls(rows[..k])
  {
    if k > 0 {
      NullsInMatch(bm, rows, k - 1);
      assert rows[..k][..k - 1] == rows[..k - 1];
    }
  }

  /** The zero bits among the column's rows are its null rows. */
  lemma NullsInRows(n: nat, bm: seq<bv8>, offs: seq<int>, data: seq<Byte>, eb: Option<seq<Byte>>)
    requires Wellformed(n, bm, offs, data, eb)
    ensures NullsIn(bm, 0, n) == CountNulls(RowsOf(CellsOf(n, bm, offs, data, eb)))
  {
    var rows := RowsOf(CellsOf(n, bm, offs, data, eb));
    forall i | 0 <= i < |rows|
      ensures rows[i].None? == !Bit(bm, i)
    {
      assert CellsOf(n, bm, offs, data, eb)[i].notNull == Flags(bm, n)[i];
    }
    NullsInMatch(bm, rows, n);
    assert rows[..n] == rows;
  }

  /** Another canonical bitmap over the same data: each cell takes its flag from the new bitmap and keeps its bytes. */
  lemma CellsReflagged(n: nat, bm: seq<bv8>, bm2: seq<bv8>, offs: seq<int>, data: seq<Byte>, eb: Option<seq<Byte>>)
    requires Wellformed(n, bm, offs, data, eb) && Canonical(bm2, n)
    ensures Wellformed(n, bm2, offs, data, eb)
    ensures forall r | 0 <= r < n ::
              CellsOf(n, bm2, offs, data, eb)[r] == Cell(Bit(bm2, r), CellsOf(n, bm, offs, data, eb)[r].raw)
  {
  }

  /**
   * Once the bitmap has k more rows with one flag and the data buffers k more
   * raw values, the column has k more cells: those flags with those values.
   */
  lemma CellsAppended(n: nat, bm: seq<bv8>, offs: seq<int>, data: seq<Byte>, eb: Option<seq<Byte>>,
                      bm2: seq<bv8>, k: nat, notNull: bool,
                      offs2: seq<int>, data2: seq<Byte>, eb2: Option<seq<Byte>>, es: seq<seq<Byte>>)
    requires Wellformed(n, bm, offs, data, eb) && AppendedSame(bm, n, bm2, k, notNull)
    requires DataOk(n + k, offs2, data2, eb2) && |es| == k
    requires RawsOf(n + k, offs2, data2, eb2) == RawsOf(n, offs, data, eb) + es
    ensures Wellformed(n + k, bm2, offs2, data2, eb2)
    ensures CellsOf(n + k, bm2, offs2, data2, eb2) == CellsOf(n, bm, offs, data, eb) + Zip(seq(k, _ => notNull), es)
  {
    assert Flags(bm2, n + k) == Flags(bm, n) + seq(k, _ => notNull);
    ZipAppend(Flags(bm, n), RawsOf(n, offs, data, eb), seq(k, _ => notNull), es);
  }

  /** Appending times copies of one cell: the rows gain times copies of that cell's row. */
  lemma CopiesAppended(n: nat, bm: seq<bv8>, offs: seq<int>, data: seq<Byte>, eb: Option<seq<Byte>>,
                       bm2: seq<bv8>, offs2: seq<int>, data2: seq<Byte>, times: nat, c: Cell)
    requires Wellformed(n, bm, offs, data, eb) && AppendedSame(bm, n, bm2, times, c.notNull)
    requires DataOk(n + times, offs2, data2, eb)
    requires RawsOf(n + times, offs2, data2, eb) == RawsOf(n, offs, data, eb) + seq(times, _ => c.raw)
    ensures Wellformed(n + times, bm2, offs2, data2, eb)
    ensures CellsOf(n + times, bm2, offs2, data2, eb) == CellsOf(n, bm, offs, data, eb) + seq(times, _ => c)
    ensures RowsOf(CellsOf(n + times, bm2, offs2, data2, eb)) ==
              RowsOf(CellsOf(n, bm, offs, data, eb)) + seq(times, _ => RowOf(c))
  {
    CellsAppended(n, bm, offs, data, eb, bm2, times, c.notNull, offs2, data2, eb, seq(times, _ => c.raw));
    assert Zip(seq(times, _ => c.notNull), seq(times, _ => c.raw)) == seq(times, _ => c);
    RowsOfAppend(CellsOf(n, bm, offs, data, eb), seq(times, _ => c));
  }

  /** A selection vector: row indexes below n. */
  predicate InRange(sel: seq<int>, n: nat)
  {
    forall j | 0 <= j < |sel| :: 0 <= sel[j] < n
  }

  predicate StrictlyIncreasing(sel: seq<int>)
  {
    forall i, j | 0 <= i < j < |sel| :: sel[i] < sel[j]
  }

  /** The rows picked by sel, in sel's order. */
  function Select<T>(rows: seq<T>, sel: seq<int>): (r: seq<T>)
    requires InRange(sel, |rows|)
  {
    seq(|sel|, j requires 0 <= j < |sel| => rows[sel[j]])
  }

  lemma {:induction false} IncreasingLowerBound(sel: seq<int>, n: nat, j: nat)
    requires StrictlyIncreasing(sel) && InRange(sel, n) && j < |sel|
    ensures j <= sel[j]
  {
    if j > 0 {
      IncreasingLowerBound(sel, n, j - 1);
    }
  }

  lemma {:induction false} IncreasingUpperBound(sel: seq<int>, n: nat, j: nat)
    requires StrictlyIncreasing(sel) && InRange(sel, n) && j < |sel|
    ensures sel[j] <= n - |sel| + j
    decreases |sel| - j
  {
    if j + 1 < |sel| {
      IncreasingUpperBound(sel, n, j + 1);
    }
  }

  /**
   * What reconstruct leaves in a variable-length column: the raw bytes of
   * each selected not-null row, and no bytes for a selected null row.
   */
  function KeptRaws(flags: seq<bool>, raws: seq<seq<Byte>>, sel: seq<int>): (r: seq<seq<Byte>>)
    requires |flags| == |raws| && InRange(sel, |flags|)
    ensures |r| == |sel|
  {
    seq(|sel|, k requires 0 <= k < |sel| => if flags[sel[k]] then raws[sel[k]] else [])
  }

  /**
   * One step of the fixed-length half of reconstruct: when rows 0..j-1 carry
   * the selected rows' flags (and, if not null, their elements) and every
   * later row is still the original's, moving row sel[j] to row j extends
   * that to rows 0..j.
   */
  lemma FixedMoveStep(n: nat, sel: seq<int>, bm0: seq<bv8>, raws0: seq<seq<Byte>>, j: nat,
                      bm: seq<bv8>, raws: seq<seq<Byte>>, bm2: seq<bv8>, raws2: seq<seq<Byte>>)
    requires InRange(sel, n) && j < |sel| && j <= sel[j] && |raws0| == |raws| == n <= 8 * |bm0|
    requires |bm| == |bm0| && forall k: nat | k < 8 * |bm0| :: Bit(bm, k) == if k < j then Bit(bm0, sel[k]) else Bit(bm0, k)
    requires forall k | j <= k < n :: raws[k] == raws0[k]
    requires forall k | 0 <= k < j :: Bit(bm0, sel[k]) ==> raws[k] == raws0[sel[k]]
    requires |bm2| == |bm| && forall k: nat | k < 8 * |bm2| :: Bit(bm2, k) == if k == j then Bit(bm, sel[j]) else Bit(bm, k)
    requires raws2 == if Bit(bm, sel[j]) then raws[j := raws[sel[j]]] else raws
    ensures forall k: nat | k < 8 * |bm0| :: Bit(bm2, k) == if k < j + 1 then Bit(bm0, sel[k]) else Bit(bm0, k)
    ensures forall k | j + 1 <= k < n :: raws2[k] == raws0[k]
    ensures forall k | 0 <= k < j + 1 :: Bit(bm0, sel[k]) ==> raws2[k] == raws0[sel[k]]
  {
    assert Bit(bm, sel[j]) == Bit(bm0, sel[j]);
  }

  /**
   * Where the variable-length half of reconstruct stands after moving j
   * selected rows: rows 0..j-1 carry the selected rows' flags, and their
   * bytes are packed into data[..tail] under offsets offs[..j]; every later
   * flag, every later offset and every byte from tail on is still the
   * original's, and the next selected row starts at or after tail.
   */
  ghost predicate VarPacked(n: nat, sel: seq<int>, bm0: seq<bv8>, offs0: seq<int>, d0: seq<Byte>,
                            j: nat, tail: nat, bm: seq<bv8>, offs: seq<int>, data: seq<Byte>)
    requires n <= 8 * |bm0| && DataOk(n, offs0, d0, None) && InRange(sel, n) && j <= |sel|
  {
    |bm| == |bm0| && j < |offs| == |offs0| && |data| == |d0| && tail <= |d0| &&
    (forall k: nat | k < 8 * |bm0| :: Bit(bm, k) == if k < j then Bit(bm0, sel[k]) else Bit(bm0, k)) &&
    (forall k | j <= k < |offs0| :: offs[k] == offs0[k]) &&
    data[tail..] == d0[tail..] &&
    (j < |sel| ==> tail <= offs0[sel[j]]) &&
    DataOk(j, offs[..j] + [tail], data[..tail], None) &&
    forall k | 0 <= k < j :: RawOf(j, offs[..j] + [tail], data[..tail], None, k) ==
      if Bit(bm0, sel[k]) then RawOf(n, offs0, d0, None, sel[k]) else []
  }

  lemma VarPackedStart(n: nat, sel: seq<int>, bm0: seq<bv8>, offs0: seq<int>, d0: seq<Byte>)
    requires n <= 8 * |bm0| && DataOk(n, offs0, d0, None) && InRange(sel, n)
    ensures VarPacked(n, sel, bm0, offs0, d0, 0, 0, bm0, offs0, d0)
  {
    assert DataOk(0, offs0[..0] + [0], d0[..0], None);
    if |sel| > 0 {
      assert offs0[0] <= offs0[sel[0]];
    }
  }

  /** Before moving selected row j, its offsets and bytes are still the original's, behind tail. */
  lemma VarPackedNext(n: nat, sel: seq<int>, bm0: seq<bv8>, offs0: seq<int>, d0: seq<Byte>,
                      j: nat, tail: nat, bm: seq<bv8>, offs: seq<int>, data: seq<Byte>)
    requires n <= 8 * |bm0| && DataOk(n, offs0, d0, None) && StrictlyIncreasing(sel) && InRange(sel, n) && j < |sel|
    requires VarPacked(n, sel, bm0, offs0, d0, j, tail, bm, offs, data)
    ensures j <= sel[j] && sel[j] + 1 < |offs| && sel[j] < 8 * |bm|
    ensures tail <= offs[sel[j]] <= offs[sel[j] + 1] <= |data|
    ensures Bit(bm, sel[j]) == Bit(bm0, sel[j])
    ensures data[offs[sel[j]] .. offs[sel[j] + 1]] == RawOf(n, offs0, d0, None, sel[j])
  {
    var src := sel[j];
    IncreasingLowerBound(sel, n, j);
    assert offs0[src] <= offs0[src + 1];
    SliceOfSuffix(data, d0, tail, offs0[src], offs0[src + 1]);
  }

  /**
   * Moving selected row j to row j (its flag to bit j, its offset entry to
   * tail, its bytes to data[tail..newTail]) keeps the packing.
   */
  lemma VarPackedStep(n: nat, sel: seq<int>, bm0: seq<bv8>, offs0: seq<int>, d0: seq<Byte>,
                      j: nat, tail: nat, bm: seq<bv8>, offs: seq<int>, data: seq<Byte>,
                      newTail: nat, bm2: seq<bv8>, offs2: seq<int>, data2: seq<Byte>)
    requires n <= 8 * |bm0| && DataOk(n, offs0, d0, None) && StrictlyIncreasing(sel) && InRange(sel, n) && j < |sel|
    requires VarPacked(n, sel, bm0, offs0, d0, j, tail, bm, offs, data)
    requires j <= sel[j] && sel[j] + 1 < |offs| && sel[j] < 8 * |bm| && offs[sel[j]] <= offs[sel[j] + 1] <= |data|
    requires |bm2| == |bm| &&
             forall k: nat | k < 8 * |bm2| :: Bit(bm2, k) == if k == j then Bit(bm, sel[j]) else Bit(bm, k)
    requires offs2 == offs[j := tail]
    requires var e := if Bit(bm, sel[j]) then data[offs[sel[j]] .. offs[sel[j] + 1]] else [];
             newTail == tail + |e| && |data2| == |data| &&
             data2[..newTail] == data[..tail] + e && data2[newTail..] == data[newTail..]
    ensures VarPacked(n, sel, bm0, offs0, d0, j + 1, newTail, bm2, offs2, data2)
  {
    var src := sel[j];
    VarPackedNext(n, sel, bm0, offs0, d0, j, tail, bm, offs, data);
    var e := if Bit(bm, src) then data[offs[src] .. offs[src + 1]] else [];
    assert e == if Bit(bm0, src) then RawOf(n, offs0, d0, None, src) else [];
    assert j + 1 < |sel| ==> newTail <= offs0[sel[j + 1]] by {
      if j + 1 < |sel| {
        assert src + 1 <= sel[j + 1];
        assert offs0[src + 1] <= offs0[sel[j + 1]];
      }
    }
    assert data2[newTail..] == d0[newTail..] by {
      assert data[newTail..] == data[tail..][newTail - tail..];
      assert d0[newTail..] == d0[tail..][newTail - tail..];
    }
    assert forall k | j + 1 <= k < |offs0| :: offs2[k] == offs0[k];
    MovedBitsStep(bm0, bm, bm2, sel, j);
    PackedRawsStep(n, sel, bm0, offs0, d0, j, tail, offs, data, e, offs2, data2);
  }

  /** Bit j takes selected row j's flag; the bits before it already hold the earlier selected rows' flags. */
  lemma MovedBitsStep(bm0: seq<bv8>, bm: seq<bv8>, bm2: seq<bv8>, sel: seq<int>, j: nat)
    requires |bm| == |bm0| == |bm2| && j < |sel| && InRange(sel, 8 * |bm0|) && j <= sel[j]
    requires forall k: nat | k < 8 * |bm0| :: Bit(bm, k) == if k < j then Bit(bm0, sel[k]) else Bit(bm0, k)
    requires forall k: nat | k < 8 * |bm2| :: Bit(bm2, k) == if k == j then Bit(bm, sel[j]) else Bit(bm, k)
    ensures forall k: nat | k < 8 * |bm0| :: Bit(bm2, k) == if k < j + 1 then Bit(bm0, sel[k]) else Bit(bm0, k)
  {
  }

  /** Packing selected row j's bytes e after the first j rows' keeps the packed rows what they should be. */
  lemma PackedRawsStep(n: nat, sel: seq<int>, bm0: seq<bv8>, offs0: seq<int>, d0: seq<Byte>,
                       j: nat, tail: nat, offs: seq<int>, data: seq<Byte>, e: seq<Byte>,
                       offs2: seq<int>, data2: seq<Byte>)
    requires n <= 8 * |bm0| && DataOk(n, offs0, d0, None) && InRange(sel, n) && j < |sel| && j < |offs|
    requires tail <= |data| && DataOk(j, offs[..j] + [tail], data[..tail], None)
    requires forall k | 0 <= k < j :: RawOf(j, offs[..j] + [tail], data[..tail], None, k) ==
               if Bit(bm0, sel[k]) then RawOf(n, offs0, d0, None, sel[k]) else []
    requires e == if Bit(bm0, sel[j]) then RawOf(n, offs0, d0, None, sel[j]) else []
    requires offs2 == offs[j := tail] && tail + |e| <= |data2| && data2[..tail + |e|] == data[..tail] + e
    ensures DataOk(j + 1, offs2[..j + 1] + [tail + |e|], data2[..tail + |e|], None)
    ensures forall k | 0 <= k < j + 1 :: RawOf(j + 1, offs2[..j + 1] + [tail + |e|], data2[..tail + |e|], None, k) ==
              if Bit(bm0, sel[k]) then RawOf(n, offs0, d0, None, sel[k]) else []
  {
    var o1, d1 := offs[..j] + [tail], data[..tail];
    var o2, d2 := offs2[..j + 1] + [tail + |e|], data2[..tail + |e|];
    PackStep(j, tail, offs, data, e, offs2, data2);
    forall k | 0 <= k < j + 1
      ensures RawOf(j + 1, o2, d2, None, k) == if Bit(bm0, sel[k]) then RawOf(n, offs0, d0, None, sel[k]) else []
    {
      assert RawOf(j + 1, o2, d2, None, k) == RawsOf(j + 1, o2, d2, None)[k];
      if k < j {
        assert RawsOf(j + 1, o2, d2, None)[k] == RawsOf(j, o1, d1, None)[k];
      }
    }
  }

  /**
   * Once every selected row is packed, writing the end offset and cutting
   * the offsets and the data leaves a column of the kept rows.
   */
  lemma VarPackedDone(n: nat, sel: seq<int>, bm0: seq<bv8>, offs0: seq<int>, d0: seq<Byte>,
                      tail: nat, bm: seq<bv8>, offs: seq<int>, data: seq<Byte>)
    requires n <= 8 * |bm0| && DataOk(n, offs0, d0, None) && InRange(sel, n)
    requires VarPacked(n, sel, bm0, offs0, d0, |sel|, tail, bm, offs, data)
    ensures |sel| < |offs| && tail <= |data| && |bm| == |bm0|
    ensures forall k: nat | k < |sel| :: Bit(bm, k) == Bit(bm0, sel[k])
    ensures var offs2 := offs[|sel| := tail][..|sel| + 1];
      DataOk(|sel|, offs2, data[..tail], None) &&
      RawsOf(|sel|, offs2, data[..tail], None) == KeptRaws(Flags(bm0, n), RawsOf(n, offs0, d0, None), sel)
  {
    UpdateTruncate(offs, |sel|, tail);
    assert sel[..|sel|] == sel;
  }

  /**
   * Rows whose flags are the selected flags and whose not-null rows hold the
   * selected bytes read as the selected rows.
   */
  lemma SelectValues(flags0: seq<bool>, raws0: seq<seq<Byte>>, sel: seq<int>, flags: seq<bool>, raws: seq<seq<Byte>>)
    requires |flags0| == |raws0| && InRange(sel, |flags0|)
    requires flags == Select(flags0, sel) && |raws| == |sel|
    requires forall k | 0 <= k < |sel| :: flags[k] ==> raws[k] == raws0[sel[k]]
    ensures RowsOf(Zip(flags, raws)) == Select(RowsOf(Zip(flags0, raws0)), sel)
  {
  }

  /**
   * The rows left after moving the selected rows down: when row k carries
   * the flag of row sel[k] and, if that one is not null, its bytes, the
   * column reads as the selection of the original rows.
   */
  lemma SelectedRows(n: nat, bm0: seq<bv8>, offs0: seq<int>, d0: seq<Byte>, eb: Option<seq<Byte>>, sel: seq<int>,
                     bm: seq<bv8>, offs: seq<int>, data: seq<Byte>)
    requires Wellformed(n, bm0, offs0, d0, eb) && InRange(sel, n)
    requires Wellformed(|sel|, bm, offs, data, eb)
    requires forall k: nat | k < |sel| :: Bit(bm, k) == Bit(bm0, sel[k])
    requires forall k | 0 <= k < |sel| :: Bit(bm0, sel[k]) ==>
               RawsOf(|sel|, offs, data, eb)[k] == RawsOf(n, offs0, d0, eb)[sel[k]]
    ensures RowsOf(CellsOf(|sel|, bm, offs, data, eb)) == Select(RowsOf(CellsOf(n, bm0, offs0, d0, eb)), sel)
  {
    SelectValues(Flags(bm0, n), RawsOf(n, offs0, d0, eb), sel, Flags(bm, |sel|), RawsOf(|sel|, offs, data, eb));
  }

  /** KeptRaws holds the bytes of every selected not-null row. */
  lemma KeptRawsSelected(flags: seq<bool>, raws: seq<seq<Byte>>, sel: seq<int>)
    requires |flags| == |raws| && InRange(sel, |flags|)
    ensures forall k | 0 <= k < |sel| :: flags[sel[k]] ==> KeptRaws(flags, raws, sel)[k] == raws[sel[k]]
  {
  }

  /** A strictly increasing selection of rows below n picks at most n rows. */
  lemma SelectionLength(sel: seq<int>, n: nat)
    requires StrictlyIncreasing(sel) && InRange(sel, n)
    ensures |sel| <= n
  {
    if |sel| > 0 {
      IncreasingUpperBound(sel, n, 0);
    }
  }

  /**
   * A strictly increasing selection of all n rows is the identity, so selecting
   * with it changes nothing: the shortcut CopyReconstruct takes to CopyConstruct.
   */
  lemma FullSelectionIsIdentity<T>(rows: seq<T>, sel: seq<int>)
    requires StrictlyIncreasing(sel) && InRange(sel, |rows|) && |sel| == |rows|
    ensures Select(rows, sel) == rows
  {
    forall j | 0 <= j < |sel|
      ensures sel[j] == j
    {
      IncreasingLowerBound(sel, |rows|, j);
      IncreasingUpperBound(sel, |rows|, j);
    }
  }

  /** Every row index is at least the one before it; repeats allowed. */
  predicate NonDecreasing(sel: seq<int>)
  {
    forall i, j | 0 <= i < j < |sel| :: sel[i] <= sel[j]
  }

  /**
   * The ascend test of CopyReconstruct as written accepts repeats: on a
   * column of two different rows the selection [0, 0] has full length and
   * passes, yet selecting with it is not the column.
   */
  lemma AscendAsWrittenAcceptsRepeats()
    ensures var rows: seq<Row> := [Some([1]), Some([2])];
      NonDecreasing([0, 0]) && |[0, 0]| == |rows| && InRange([0, 0], |rows|) && Select(rows, [0, 0]) != rows
  {
    var rows: seq<Row> := [Some([1]), Some([2])];
    assert Select(rows, [0, 0])[1] == Some([1]);
  }

  /** Selecting one more index appends that row. */
  lemma SelectStep<T>(rows: seq<T>, sel: seq<int>, k: nat)
    requires InRange(sel, |rows|) && k < |sel|
    ensures Select(rows, sel[..k + 1]) == Select(rows, sel[..k]) + [rows[sel[k]]]
  {
  }

  /** Selecting cells and reading them as rows commute. */
  lemma SelectRowsOf(cells: seq<Cell>, sel: seq<int>)
    requires InRange(sel, |cells|)
    ensures RowsOf(Select(cells, sel)) == Select(RowsOf(cells), sel)
  {
  }

  /**
   * Go's `append(x[:0], y...)` on a byte slice, nil told apart from empty:
   * y's bytes, in a slice that is nil only when x is nil and y has no bytes.
   * CopyConstruct copies elemBuf this way.
   */
  function AppendToEmpty(x: Option<seq<Byte>>, y: Option<seq<Byte>>): (r: Option<seq<Byte>>)
    ensures r.Some? <==> x.Some? || NullRaw(y) != []
    ensures NullRaw(r) == NullRaw(y)
  {
    if y.Some? && |y.value| > 0 then y
    else if x.Some? then Some([])
    else None
  }

  /**
   * Copying a variable-length column's nil elemBuf into a fixed-length
   * destination leaves the destination a non-nil empty elemBuf: it then
   * counts as fixed-length, and a one-row copy holding a byte breaks the
   * fixed-length layout.
   */
  lemma CopyElemBufAsWrittenTurnsFixed()
    ensures AppendToEmpty(Some(Zeros(8)), None) == Some([])
    ensures DataOk(1, [0, 1], [7], None) && !DataOk(1, [0, 1], [7], Some([]))
  {
  }

  /**
   * The variable-length loop of reconstruct as pkg/util/chunk/column.go
   * writes it, from selected row j on: a null row stores tail in offs[j + 1];
   * a not-null row's bytes offs[src] .. offs[src + 1] are copied to tail
   * (Go's copy moves as many bytes as fit), tail passes them and offs[j + 1]
   * gets the new tail. A later iteration with sel[j + 1] == j + 1 then reads
   * that rewritten entry as its row's start. flags are the rows' original
   * not-null flags, which the loop reads before it rewrites them (it only
   * writes bits below j <= sel[j]). None stands for Go's panic on an index
   * or a slice bound out of range.
   */
  function PackVarAsWritten(flags: seq<bool>, sel: seq<int>, j: nat, offs: seq<int>, data: seq<Byte>, tail: nat)
    : (r: Option<(seq<int>, seq<Byte>, nat)>)
    requires InRange(sel, |flags|) && j <= |sel|
    ensures r.Some? ==> |r.value.0| == |offs| && |r.value.1| == |data| && tail <= r.value.2
    ensures r.Some? ==> forall k | 0 <= k <= j && k < |offs| :: r.value.0[k] == offs[k]
    decreases |sel| - j
  {
    if j == |sel| then Some((offs, data, tail))
    else
      var src := sel[j];
      if j + 1 >= |offs| then None
      else if !flags[src] then PackVarAsWritten(flags, sel, j + 1, offs[j + 1 := tail], data, tail)
      else if src + 1 >= |offs| || !(0 <= offs[src] <= offs[src + 1] <= |data|) || tail > |data| then None
      else
        var e := data[offs[src] .. offs[src + 1]];
        var m := if |e| < |data| - tail then |e| else |data| - tail;
        var data2 := data[..tail] + e[..m] + data[tail + m..];
        var tail2 := tail + |e|;
        PackVarAsWritten(flags, sel, j + 1, offs[j + 1 := tail2], data2, tail2)
  }

  /** The whole variable-length branch as written: the loop, then data[:tail] and offsets[:len(sel) + 1]. */
  function ReconstructVarAsWritten(flags: seq<bool>, sel: seq<int>, offs: seq<int>, data: seq<Byte>)
    : (r: Option<(seq<int>, seq<Byte>)>)
    requires InRange(sel, |flags|)
    ensures r.Some? ==> |r.value.0| == |sel| + 1 && |r.value.1| <= |data|
    ensures r.Some? && |offs| > 0 ==> r.value.0[0] == offs[0]
  {
    match PackVarAsWritten(flags, sel, 0, offs, data, 0)
    case None => None
    case Some((offs2, data2, tail)) =>
      if tail <= |data2| && |sel| + 1 <= |offs2| then Some((offs2[..|sel| + 1], data2[..tail])) else None
  }

  /**
   * Three rows, row 0 null but still holding the bytes [1, 2] (SetNull on a
   * variable-length row leaves its bytes), rows 1 and 2 holding [3] and [4].
   */
  lemma NullRowWithBytes()
    ensures Wellformed(3, [6], [0, 2, 3, 4], [1, 2, 3, 4], None)
    ensures Flags([6], 3) == [false, true, true]
    ensures RowsOf(CellsOf(3, [6], [0, 2, 3, 4], [1, 2, 3, 4], None)) == [None, Some([3]), Some([4])]
  {
    var bm: seq<bv8> := [6];
    var offs, data := [0, 2, 3, 4], [1, 2, 3, 4];
    assert !Bit(bm, 0) && Bit(bm, 1) && Bit(bm, 2);
    assert forall i: nat | 3 <= i < 8 :: !Bit(bm, i);
    assert RawsOf(3, offs, data, None) == [[1, 2], [3], [4]] by {
      assert RawOf(3, offs, data, None, 0) == data[0..2] == [1, 2];
      assert RawOf(3, offs, data, None, 1) == data[2..3] == [3];
      assert RawOf(3, offs, data, None, 2) == data[3..4] == [4];
    }
    assert Flags(bm, 3) == [false, true, true];
  }

  /**
   * Keeping rows 0 and 1 of that column as written gives row 1 the bytes
   * [1, 2, 3] instead of [3]: the end offset written for row 0 is read back
   * as the start of row 1.
   */
  lemma ReconstructVarAsWrittenMergesRows()
    ensures ReconstructVarAsWritten([false, true, true], [0, 1], [0, 2, 3, 4], [1, 2, 3, 4]) == Some(([0, 0, 3], [1, 2, 3]))
    ensures DataOk(2, [0, 0, 3], [1, 2, 3], None) && RawOf(2, [0, 0, 3], [1, 2, 3], None, 1) == [1, 2, 3]
  {
    var offs, data := [0, 2, 3, 4], [1, 2, 3, 4];
    var flags, sel := [false, true, true], [0, 1];
    var offs1 := [0, 0, 3, 4];
    var e := data[0..3];
    assert e == [1, 2, 3] && e[..3] == e && data[..0] + e[..3] + data[0 + 3..] == data;
    assert offs1[2 := 3] == offs1 && offs[1 := 0] == offs1;
    assert PackVarAsWritten(flags, sel, 2, offs1, data, 3) == Some((offs1, data, 3));
    assert PackVarAsWritten(flags, sel, 1, offs1, data, 0) == Some((offs1, data, 3));
    assert PackVarAsWritten(flags, sel, 0, offs, data, 0) == Some((offs1, data, 3));
    assert offs1[..3] == [0, 0, 3] && data[..3] == [1, 2, 3];
  }
}
