/**
 * Column of pkg/util/chunk/column.go: one column of a chunk in the Apache
 * Arrow columnar format. A fixed-length column (elemBuf non-nil) stores its
 * elements back to back in data; a variable-length column (elemBuf nil)
 * stores row i in data[offsets[i] .. offsets[i + 1]]. Every row has one bit
 * in nullBitmap.
 */
module Chunk {
  import opened Wrappers
  import opened NullBitmap
  import opened ColumnLayout
  import NameValueCodec

  /** The element width that marks a variable-length type. */
  const VarElemLen: int := -1

  /** Element widths of the fixed-length types (unsafe.Sizeof on a 64-bit target). */
  const SizeInt64: nat := 8
  const SizeFloat64: nat := 8
  const SizeGoDuration: nat := 8
  /** types.Time is one 64-bit packed word. */
  const SizeTime: nat := 8
  /** types.MyDecimal: three int8 fields, a bool and nine int32 words. */
  const SizeMyDecimal: nat := 40
  /** The length of emptyBuf, the zero block resize copies over the data. */
  const EmptyBufLen: nat := 4 * 1024
  /** The estimated element size every Reserve* method passes to reserve. */
  const EstVarElemSize: nat := 8

  /** The evaluation types Reset distinguishes; Other stands for every other value. */
  datatype EvalType = ETInt | ETReal | ETDecimal | ETString | ETDatetime | ETTimestamp
                    | ETDuration | ETJson | ETVectorFloat32 | Other

  class Column {
    var length: nat
    var nullBitmap: seq<bv8>
    var offsets: seq<int>
    var data: seq<Byte>
    /** Some(buffer) for a fixed-length column, whose width is |buffer|; None (nil) otherwise. */
    var elemBuf: Option<seq<Byte>>

    ghost predicate Valid()
      reads this
    {
      Wellformed(length, nullBitmap, offsets, data, elemBuf)
    }

    /** The rows with their flags and raw bytes. */
    ghost function Cells(): seq<Cell>
      reads this
      requires Valid()
    {
      CellsOf(length, nullBitmap, offsets, data, elemBuf)
    }

    /** The rows as a reader sees them: None for null, otherwise the raw bytes. */
    ghost function Values(): seq<Row>
      reads this
      requires Valid()
    {
      RowsOf(Cells())
    }

    /** newFixedLenColumn: no rows, an element buffer of elemLen zero bytes. */
    constructor NewFixedLen(elemLen: nat)
      ensures Valid() && Cells() == []
      ensures elemBuf == Some(Zeros(elemLen)) && offsets == [] && data == [] && nullBitmap == []
    {
      length := 0;
      nullBitmap := [];
      offsets := [];
      data := [];
      elemBuf := Some(Zeros(elemLen));
    }

    /** newVarLenColumn: no rows and the single offset 0. */
    constructor NewVarLen()
      ensures Valid() && Cells() == []
      ensures elemBuf == None && offsets == [0] && data == [] && nullBitmap == []
    {
      length := 0;
      nullBitmap := [];
      offsets := [0];
      data := [];
      elemBuf := None;
    }

    /** A fixed-length column is one with an element buffer; a variable-length one has type size VarElemLen. */
    function isFixed(): (r: bool)
      reads this
      ensures r <==> elemBuf.Some?
      ensures !r ==> typeSize() == VarElemLen
    {
      elemBuf.Some?
    }

    /** The element width, or VarElemLen when there is no (or an empty) element buffer. */
    function typeSize(): (r: int)
      reads this
      ensures r == VarElemLen || (elemBuf.Some? && r == |elemBuf.value| > 0)
      ensures r == VarElemLen <==> elemBuf.None? || |elemBuf.value| == 0
    {
      if elemBuf.Some? && |elemBuf.value| > 0 then |elemBuf.value| else VarElemLen
    }

    /** IsNull: the row's bit in nullBitmap is 0. */
    function IsNull(rowIdx: nat): (r: bool)
      reads this
      requires rowIdx < 8 * |nullBitmap|
      ensures r == !Bit(nullBitmap, rowIdx)
      ensures Valid() && rowIdx < length ==> (r <==> Values()[rowIdx].None?)
    {
      nullBitmap[rowIdx / 8] & SingleBit(rowIdx % 8) == 0
    }

    /** GetRaw: the bytes that hold the row, null or not. */
    function GetRaw(rowID: nat): (r: seq<Byte>)
      reads this
      requires Valid() && rowID < length
      ensures r == Cells()[rowID].raw
      ensures !IsNull(rowID) ==> Values()[rowID] == Some(r)
      ensures elemBuf.Some? ==> |r| == |elemBuf.value|
    {
      RawOf(length, offsets, data, elemBuf, rowID)
    }

    /** GetBytes (and GetString, a Go string being a byte sequence) of a variable-length column. */
    function GetBytes(rowID: nat): (r: seq<Byte>)
      reads this
      requires Valid() && elemBuf.None? && rowID < length
      ensures r == Cells()[rowID].raw
      ensures |r| == offsets[rowID + 1] - offsets[rowID]
    {
      data[offsets[rowID] .. offsets[rowID + 1]]
    }

    /** appendNullBitmap: adds the bit of row `length`, which the caller then counts. */
    method appendNullBitmap(notNull: bool)
      requires Canonical(nullBitmap, length)
      modifies this`nullBitmap
      ensures AppendedSame(old(nullBitmap), length, nullBitmap, 1, notNull)
    {
      ghost var bm0 := nullBitmap;
      var idx := length / 8;
      if idx >= |nullBitmap| {
        BitAppend(nullBitmap, 0);
        ConstBits();
        nullBitmap := nullBitmap + [0];
      }
      assert |nullBitmap| == (length + 8) / 8;
      assert forall i: nat | i < 8 * |nullBitmap| :: Bit(nullBitmap, i) == (i < length && Bit(bm0, i));
      if notNull {
        var pos := length % 8;
        ghost var bm1 := nullBitmap;
        nullBitmap := nullBitmap[idx := nullBitmap[idx] | SingleBit(pos)];
        SetBit(bm1, length, nullBitmap);
      }
    }

    /**
     * appendMultiSameNullBitmap: adds num bits with the same value. With notNull,
     * num == 0 and a row count that is a multiple of 8 the Go code indexes one
     * byte past the bitmap, so that call is excluded.
     */
    method appendMultiSameNullBitmap(notNull: bool, num: nat)
      requires Canonical(nullBitmap, length)
      requires notNull ==> num > 0 || length % 8 != 0
      modifies this`nullBitmap
      ensures AppendedSame(old(nullBitmap), length, nullBitmap, num, notNull)
    {
      ghost var bm0 := nullBitmap;
      var numNewBytes := (length + num + 7) / 8 - |nullBitmap|;
      padNullBitmap(numNewBytes, notNull);
      PadBits(bm0, length, numNewBytes, notNull);
      if !notNull {
        return;
      }
      ghost var bm1 := nullBitmap;
      assert length / 8 < |bm1|;
      // Set the bits after the last old row in its byte.
      var numRemainingBits := length % 8;
      nullBitmap := nullBitmap[length / 8 := nullBitmap[length / 8] | !LowMask(numRemainingBits)];
      FillOnes(bm0, length, bm1, num, nullBitmap);
      ghost var bm2 := nullBitmap;
      // Clear the bits after the last new row in the last byte.
      var numRedundantBits := |nullBitmap| * 8 - length - num;
      nullBitmap := nullBitmap[|nullBitmap| - 1 := nullBitmap[|nullBitmap| - 1] & LowMask(8 - numRedundantBits)];
      ClearPastOnes(bm0, length, num, bm2, nullBitmap);
    }

    /** The loop of appendMultiSameNullBitmap: k more bytes, all ones or all zeros. */
    method padNullBitmap(k: nat, notNull: bool)
      modifies this`nullBitmap
      ensures nullBitmap == old(nullBitmap) + FillBytes(k, notNull)
    {
      var b: bv8 := if notNull then 0xFF else 0;
      var i := 0;
      while i < k
        invariant 0 <= i <= k
        invariant nullBitmap == old(nullBitmap) + FillBytes(i, notNull)
      {
        assert FillBytes(i + 1, notNull) == FillBytes(i, notNull) + [b];
        nullBitmap := nullBitmap + [b];
        i := i + 1;
      }
    }

    /** AppendNull: one null row; a fixed-length one holds a copy of elemBuf, a variable-length one no bytes. */
    method AppendNull()
      requires Valid()
      modifies this
      ensures Valid() && elemBuf == old(elemBuf)
      ensures Cells() == old(Cells()) + [Cell(false, NullRaw(elemBuf))]
      ensures Values() == old(Values()) + [None]
    {
      ghost var (n, bm, offs, d) := (length, nullBitmap, offsets, data);
      ghost var cells := Cells();
      appendNullBitmap(false);
      if isFixed() {
        RawsAppendFixed(n, offs, d, elemBuf, elemBuf.value);
        data := data + elemBuf.value;
      } else {
        RawsAppendVar(n, offs, d, []);
        assert d + [] == d;
        offsets := offsets + [offsets[length]];
      }
      CellsAppended(n, bm, offs, d, elemBuf, nullBitmap, 1, false, offsets, data, elemBuf, [NullRaw(elemBuf)]);
      length := length + 1;
      RowsOfAppend(cells, [Cell(false, NullRaw(elemBuf))]);
    }

    /** AppendNNulls: n null rows, each as AppendNull makes it. */
    method AppendNNulls(n: nat)
      requires Valid()
      modifies this
      ensures Valid() && elemBuf == old(elemBuf)
      ensures var c := Cell(false, NullRaw(elemBuf)); Cells() == old(Cells()) + seq(n, _ => c)
      ensures Values() == old(Values()) + seq(n, _ => None)
    {
      ghost var (bm, offs, d) := (nullBitmap, offsets, data);
      appendMultiSameNullBitmap(false, n);
      appendNullRaws(n);
      ghost var c := Cell(false, NullRaw(elemBuf));
      assert RawsOf(length + n, offsets, data, elemBuf) == RawsOf(length, offs, d, elemBuf) + seq(n, _ => c.raw);
      CopiesAppended(length, bm, offs, d, elemBuf, nullBitmap, offsets, data, n, c);
      length := length + n;
      assert seq(n, _ => RowOf(c)) == seq(n, _ => None);
    }

    /** The data (and offsets) half of AppendNNulls: n copies of elemBuf, or n empty rows. */
    method appendNullRaws(n: nat)
      requires DataOk(length, offsets, data, elemBuf)
      modifies this`data, this`offsets
      ensures DataOk(length + n, offsets, data, elemBuf)
      ensures var e := NullRaw(elemBuf);
        RawsOf(length + n, offsets, data, elemBuf) == old(RawsOf(length, offsets, data, elemBuf)) + seq(n, _ => e)
    {
      ghost var raws := RawsOf(length, offsets, data, elemBuf);
      ghost var e := NullRaw(elemBuf);
      if isFixed() {
        var k := 0;
        while k < n
          invariant 0 <= k <= n
          invariant DataOk(length + k, offsets, data, elemBuf)
          invariant RawsOf(length + k, offsets, data, elemBuf) == raws + seq(k, _ => e)
        {
          RawsAppendFixed(length + k, offsets, data, elemBuf, e);
          assert raws + seq(k + 1, _ => e) == raws + seq(k, _ => e) + [e];
          data := data + elemBuf.value;
          k := k + 1;
        }
      } else {
        var currentLength := offsets[length];
        var k := 0;
        while k < n
          invariant 0 <= k <= n && |offsets| == length + k + 1 && offsets[length + k] == currentLength
          invariant DataOk(length + k, offsets, data, elemBuf)
          invariant RawsOf(length + k, offsets, data, elemBuf) == raws + seq(k, _ => e)
        {
          RawsAppendVar(length + k, offsets, data, e);
          assert data + e == data;
          assert raws + seq(k + 1, _ => e) == raws + seq(k, _ => e) + [e];
          offsets := offsets + [currentLength];
          k := k + 1;
        }
      }
    }

    /** finishAppendFixed: the element just written into elemBuf becomes a new not-null row. */
    method finishAppendFixed()
      requires Valid() && elemBuf.Some?
      modifies this
      ensures Valid() && elemBuf == old(elemBuf)
      ensures Cells() == old(Cells()) + [Cell(true, elemBuf.value)]
      ensures Values() == old(Values()) + [Some(elemBuf.value)]
    {
      ghost var (n, bm, offs, d) := (length, nullBitmap, offsets, data);
      ghost var cells := Cells();
      RawsAppendFixed(n, offs, d, elemBuf, elemBuf.value);
      data := data + elemBuf.value;
      appendNullBitmap(true);
      CellsAppended(n, bm, offs, d, elemBuf, nullBitmap, 1, true, offsets, data, elemBuf, [elemBuf.value]);
      length := length + 1;
      RowsOfAppend(cells, [Cell(true, elemBuf.value)]);
    }

    /**
     * finishAppendVar: the bytes appended to data since the last offset become
     * a new not-null row.
     */
    method finishAppendVar()
      requires elemBuf.None? && |offsets| == length + 1 && 0 <= offsets[length] <= |data|
      requires Wellformed(length, nullBitmap, offsets, data[..offsets[length]], None)
      modifies this
      ensures Valid() && elemBuf == None && data == old(data)
      ensures Cells() == old(CellsOf(length, nullBitmap, offsets, data[..offsets[length]], None))
                         + [Cell(true, old(data[offsets[length]..]))]
    {
      ghost var (n, bm, offs) := (length, nullBitmap, offsets);
      ghost var d := data[..offsets[length]];
      ghost var e := data[offsets[length]..];
      assert d + e == data;
      appendNullBitmap(true);
      RawsAppendVar(n, offs, d, e);
      offsets := offsets + [|data|];
      CellsAppended(n, bm, offs, d, None, nullBitmap, 1, true, offsets, data, None, [e]);
      length := length + 1;
    }

    /** AppendBytes (and AppendString): one not-null row holding b. */
    method AppendBytes(b: seq<Byte>)
      requires Valid() && elemBuf.None?
      modifies this
      ensures Valid() && elemBuf == None
      ensures Cells() == old(Cells()) + [Cell(true, b)]
      ensures Values() == old(Values()) + [Some(b)]
      ensures length == old(length) + 1 && !IsNull(length - 1) && GetBytes(length - 1) == b
    {
      ghost var cells := Cells();
      ghost var d := data;
      data := data + b;
      assert data[..offsets[length]] == d && data[offsets[length]..] == b;
      finishAppendVar();
      RowsOfAppend(cells, [Cell(true, b)]);
    }

    /** The data (and offsets) half of AppendCellNTimes: times copies of the raw bytes e. */
    method appendRawNTimes(e: seq<Byte>, times: nat)
      requires DataOk(length, offsets, data, elemBuf)
      requires elemBuf.Some? ==> |e| == |elemBuf.value|
      modifies this`data, this`offsets
      ensures DataOk(length + times, offsets, data, elemBuf)
      ensures RawsOf(length + times, offsets, data, elemBuf) == old(RawsOf(length, offsets, data, elemBuf)) + seq(times, _ => e)
    {
      ghost var raws := RawsOf(length, offsets, data, elemBuf);
      var k := 0;
      while k < times
        invariant 0 <= k <= times
        invariant DataOk(length + k, offsets, data, elemBuf)
        invariant RawsOf(length + k, offsets, data, elemBuf) == raws + seq(k, _ => e)
      {
        if isFixed() {
          RawsAppendFixed(length + k, offsets, data, elemBuf, e);
          data := data + e;
        } else {
          RawsAppendVar(length + k, offsets, data, e);
          data := data + e;
          offsets := offsets + [|data|];
        }
        assert raws + seq(k + 1, _ => e) == raws + seq(k, _ => e) + [e];
        k := k + 1;
      }
    }

    /**
     * AppendCellNTimes: times copies of src's row pos, flag and raw bytes alike.
     * Both columns have the same type. When times != 1 the Go code goes through
     * appendMultiSameNullBitmap, which cannot append zero not-null bits to a
     * column whose row count is a multiple of 8.
     */
    method AppendCellNTimes(src: Column, pos: nat, times: nat)
      requires Valid() && src.Valid() && pos < src.length
      requires SameKind(elemBuf, src.elemBuf)
      requires times == 0 && !src.IsNull(pos) ==> length % 8 != 0
      modifies this
      ensures Valid() && elemBuf == old(elemBuf)
      ensures var c := old(src.Cells()[pos]); Cells() == old(Cells()) + seq(times, _ => c)
      ensures var v := old(src.Values()[pos]); Values() == old(Values()) + seq(times, _ => v)
    {
      ghost var cell := src.Cells()[pos];
      assert src.Values()[pos] == RowOf(cell);
      var notNull := !src.IsNull(pos);
      var bytes := src.GetRaw(pos);
      assert cell == Cell(notNull, bytes);
      appendCopies(notNull, bytes, times);
    }

    /** The body of AppendCellNTimes once the row is read: times rows with flag notNull and raw bytes e. */
    method appendCopies(notNull: bool, e: seq<Byte>, times: nat)
      requires Valid() && (elemBuf.Some? ==> |e| == |elemBuf.value|)
      requires times == 0 && notNull ==> length % 8 != 0
      modifies this
      ensures Valid() && elemBuf == old(elemBuf)
      ensures Cells() == old(Cells()) + seq(times, _ => Cell(notNull, e))
      ensures Values() == old(Values()) + seq(times, _ => RowOf(Cell(notNull, e)))
    {
      ghost var (bm, offs, d) := (nullBitmap, offsets, data);
      if times == 1 {
        appendNullBitmap(notNull);
      } else {
        appendMultiSameNullBitmap(notNull, times);
      }
      appendRawNTimes(e, times);
      CopiesAppended(length, bm, offs, d, elemBuf, nullBitmap, offsets, data, times, Cell(notNull, e));
      length := length + times;
    }

    /** appendNameValue: a not-null row holding the value's 8 bytes followed by the name. */
    method appendNameValue(name: seq<Byte>, val: NameValueCodec.Uint64)
      requires Valid() && elemBuf.None?
      modifies this
      ensures Valid() && elemBuf == None
      ensures Cells() == old(Cells()) + [Cell(true, NameValueCodec.Encode(NameValueCodec.NameValue(name, val)))]
      ensures length == old(length) + 1 && GetNameValue(length - 1) == NameValueCodec.NameValue(name, val)
    {
      ghost var d := data;
      var buf := NameValueCodec.LittleEndian(val, 8);
      data := data + buf;
      data := data + name;
      assert data[..offsets[length]] == d && data[offsets[length]..] == buf + name;
      finishAppendVar();
      NameValueCodec.RoundTrip(NameValueCodec.NameValue(name, val));
    }

    /** AppendEnum: an Enum row (see appendNameValue). */
    method AppendEnum(enum: NameValueCodec.NameValue)
      requires Valid() && elemBuf.None?
      modifies this
      ensures Valid() && elemBuf == None
      ensures Cells() == old(Cells()) + [Cell(true, NameValueCodec.Encode(enum))]
      ensures length == old(length) + 1 && GetEnum(length - 1) == enum
    {
      appendNameValue(enum.name, enum.value);
    }

    /** AppendSet: a Set row (see appendNameValue). */
    method AppendSet(s: NameValueCodec.NameValue)
      requires Valid() && elemBuf.None?
      modifies this
      ensures Valid() && elemBuf == None
      ensures Cells() == old(Cells()) + [Cell(true, NameValueCodec.Encode(s))]
      ensures length == old(length) + 1 && GetSet(length - 1) == s
    {
      appendNameValue(s.name, s.value);
    }

    /**
     * getNameValue: an empty row reads as ("", 0); otherwise the first 8 bytes
     * are the value and the rest is the name. A row of 1 to 7 bytes makes the
     * Go slice expression panic, so it is excluded.
     */
    function GetNameValue(rowID: nat): (r: NameValueCodec.NameValue)
      reads this
      requires Valid() && elemBuf.None? && rowID < length
      requires |GetRaw(rowID)| == 0 || |GetRaw(rowID)| >= 8
      ensures r == NameValueCodec.Decode(Cells()[rowID].raw)
    {
      var start, end := offsets[rowID], offsets[rowID + 1];
      if start == end then NameValueCodec.NameValue([], 0)
      else
        assert data[start .. start + 8] == data[start .. end][..8];
        NameValueCodec.Decode(data[start .. end])
    }

    /** GetEnum: the row read as a name and a value (see GetNameValue). */
    function GetEnum(rowID: nat): (r: NameValueCodec.NameValue)
      reads this
      requires Valid() && elemBuf.None? && rowID < length
      requires |GetRaw(rowID)| == 0 || |GetRaw(rowID)| >= 8
      ensures r == NameValueCodec.Decode(Cells()[rowID].raw)
    {
      GetNameValue(rowID)
    }

    /** GetSet: the row read as a name and a value (see GetNameValue). */
    function GetSet(rowID: nat): (r: NameValueCodec.NameValue)
      reads this
      requires Valid() && elemBuf.None? && rowID < length
      requires |GetRaw(rowID)| == 0 || |GetRaw(rowID)| >= 8
      ensures r == NameValueCodec.Decode(Cells()[rowID].raw)
    {
      GetNameValue(rowID)
    }

    /**
     * SetRaw: overwrites the bytes of a variable-length row in place with Go's
     * copy, which stops at the shorter of the row and bs.
     */
    method SetRaw(rowID: nat, bs: seq<Byte>)
      requires Valid() && elemBuf.None? && rowID < length
      modifies this`data
      ensures Valid()
      ensures var prev := old(Cells()[rowID]);
        var m := if |bs| < |prev.raw| then |bs| else |prev.raw|;
        Cells() == old(Cells())[rowID := Cell(prev.notNull, bs[..m] + prev.raw[m..])]
    {
      var start, end := offsets[rowID], offsets[rowID + 1];
      ghost var raws := RawsOf(length, offsets, data, elemBuf);
      RawsReplaceVar(length, offsets, data, rowID, data[start .. end]);
      var m := if |bs| < end - start then |bs| else end - start;
      var e := bs[..m] + data[start + m .. end];
      RawsReplaceVar(length, offsets, data, rowID, e);
      ZipUpdate(Flags(nullBitmap, length), raws, rowID, e);
      data := data[..start] + e + data[end..];
    }

    /** The data half of resize: n * typeSize bytes, zeroed 4 KiB at a time unless the rows are null. */
    method resizeData(sizeData: nat, isNull: bool)
      modifies this`data
      ensures |data| == sizeData
      ensures !isNull ==> data == Zeros(sizeData)
    {
      if |data| >= sizeData {
        data := data[..sizeData];
      } else {
        data := Zeros(sizeData);
      }
      if !isNull {
        var j := 0;
        while j < sizeData
          invariant |data| == sizeData && 0 <= j
          invariant forall k | 0 <= k < j && k < sizeData :: data[k] == 0
        {
          var end := if j + EmptyBufLen < sizeData then j + EmptyBufLen else sizeData;
          data := data[..j] + Zeros(end - j) + data[end..];
          j := j + EmptyBufLen;
        }
      }
    }

    /** The bitmap half of resize: n rows, all with the flag !isNull. */
    method resizeNullBitmap(n: nat, isNull: bool)
      modifies this`nullBitmap
      ensures nullBitmap == UniformBitmap(n, !isNull)
    {
      var newNulls := false;
      var sizeNulls := (n + 7) / 8;
      if |nullBitmap| >= sizeNulls {
        nullBitmap := nullBitmap[..sizeNulls];
      } else {
        nullBitmap := FillBytes(sizeNulls, false);
        newNulls := true;
      }
      if !isNull || !newNulls {
        var nullVal: bv8 := if isNull then 0 else 0xFF;
        var i := 0;
        while i < |nullBitmap|
          invariant 0 <= i <= |nullBitmap| == sizeNulls
          invariant nullBitmap[..i] == FillBytes(i, !isNull)
        {
          nullBitmap := nullBitmap[i := nullVal];
          i := i + 1;
        }
        assert nullBitmap == nullBitmap[..i];
        var x := n % 8;
        if x != 0 && !isNull {
          var lastByte := LowMask(x);
          if |nullBitmap| > 0 {
            nullBitmap := nullBitmap[|nullBitmap| - 1 := lastByte];
          }
        }
      }
    }

    /**
     * resize: n rows of typeSize bytes each (a fixed-length column from then
     * on), all null or all not-null. Not-null rows are zeroed; null rows keep
     * whatever bytes the buffer held.
     */
    method resize(n: nat, typeSize: nat, isNull: bool)
      requires Valid() && typeSize > 0
      modifies this
      ensures Valid() && length == n && offsets == old(offsets)
      ensures elemBuf.Some? && |elemBuf.value| == typeSize
      ensures !isNull ==> Cells() == seq(n, _ => Cell(true, Zeros(typeSize)))
      ensures Values() == seq(n, _ => if isNull then None else Some(Zeros(typeSize)))
    {
      resizeData(n * typeSize, isNull);
      resizeNullBitmap(n, isNull);
      if elemBuf.Some? && |elemBuf.value| >= typeSize {
        elemBuf := Some(elemBuf.value[..typeSize]);
      } else {
        elemBuf := Some(Zeros(typeSize));
      }
      length := n;
      if !isNull {
        ZeroRaws(n, offsets, elemBuf.value);
      }
    }

    /**
     * reserve: an empty variable-length column (the capacity hint is not
     * modelled): no rows, no data and the single offset 0.
     */
    method reserve(n: nat, estElemSize: nat)
      requires Valid()
      modifies this
      ensures Valid() && Cells() == [] && Values() == []
      ensures elemBuf == None && offsets == [0] && data == [] && nullBitmap == []
    {
      data := [];
      nullBitmap := [];
      if |offsets| >= 1 {
        offsets := offsets[..1];
      } else {
        offsets := [0];
      }
      elemBuf := None;
      length := 0;
    }

    /**
     * reset: no rows, the type kept. The first offset survives; a
     * variable-length column without offsets gets the offset 0.
     */
    method reset()
      requires Valid()
      modifies this
      ensures Valid() && Cells() == [] && Values() == []
      ensures elemBuf == old(elemBuf) && data == [] && nullBitmap == []
      ensures offsets == if |old(offsets)| > 0 || elemBuf.None? then [0] else []
    {
      length := 0;
      nullBitmap := [];
      if |offsets| > 0 {
        offsets := offsets[..1];
      } else if !isFixed() {
        offsets := offsets + [0];
      }
      data := [];
    }

    /**
     * Reset: no rows, and the element buffer set up for the evaluation type:
     * fixed-length ones through resize, the others through reserve. An
     * unknown type is a panic, which here changes nothing.
     */
    method Reset(eType: EvalType) returns (outcome: Outcome)
      requires Valid()
      modifies this
      ensures Valid() && (outcome.Pass? ==> Cells() == [])
      ensures outcome.Fail? <==> eType == Other
      ensures eType == Other ==> unchanged(this)
      ensures eType in {ETString, ETJson, ETVectorFloat32} ==> elemBuf == None
      ensures eType == ETDecimal ==> elemBuf.Some? && |elemBuf.value| == SizeMyDecimal
      ensures eType in {ETInt, ETReal, ETDatetime, ETTimestamp, ETDuration} ==>
                elemBuf.Some? && |elemBuf.value| == 8
    {
      outcome := Pass;
      match eType {
        case ETInt => resize(0, SizeInt64, false);
        case ETReal => resize(0, SizeFloat64, false);
        case ETDecimal => resize(0, SizeMyDecimal, false);
        case ETString => reserve(0, EstVarElemSize);
        case ETDatetime => resize(0, SizeTime, false);
        case ETTimestamp => resize(0, SizeTime, false);
        case ETDuration => resize(0, SizeGoDuration, false);
        case ETJson => reserve(0, EstVarElemSize);
        case ETVectorFloat32 => reserve(0, EstVarElemSize);
        case Other => outcome := Fail("invalid EvalType");
      }
    }


    /**
     * SetNull: the row's bit cleared (null) or set (not null), every other
     * bit kept. Inside the column this only changes the row's flag.
     */
    method SetNull(rowIdx: nat, isNull: bool)
      requires rowIdx < 8 * |nullBitmap|
      modifies this`nullBitmap
      ensures |nullBitmap| == |old(nullBitmap)|
      ensures forall j: nat | j < 8 * |nullBitmap| :: Bit(nullBitmap, j) == if j == rowIdx then !isNull else Bit(old(nullBitmap), j)
      ensures old(Valid()) && rowIdx < length ==>
                Valid() && Cells() == SetFlags(old(Cells()), rowIdx, rowIdx + 1, !isNull)
    {
      ghost var bm0 := nullBitmap;
      if isNull {
        nullBitmap := nullBitmap[rowIdx / 8 := nullBitmap[rowIdx / 8] & !SingleBit(rowIdx % 8)];
        ClearBit(bm0, rowIdx, nullBitmap);
      } else {
        nullBitmap := nullBitmap[rowIdx / 8 := nullBitmap[rowIdx / 8] | SingleBit(rowIdx % 8)];
        SetBit(bm0, rowIdx, nullBitmap);
      }
      if Wellformed(length, bm0, offsets, data, elemBuf) && rowIdx < length {
        CellsReflag(length, bm0, nullBitmap, offsets, data, elemBuf, rowIdx, rowIdx + 1, !isNull);
      }
    }

    /**
     * SetNulls: rows begin .. end-1 made null or not null, bit by bit up to a
     * byte boundary, then a whole byte at a time, then bit by bit again.
     */
    method SetNulls(begin: nat, end: nat, isNull: bool)
      requires end <= 8 * |nullBitmap|
      modifies this`nullBitmap
      ensures |nullBitmap| == |old(nullBitmap)|
      ensures forall j: nat | j < 8 * |nullBitmap| ::
                Bit(nullBitmap, j) == if begin <= j < end then !isNull else Bit(old(nullBitmap), j)
      ensures old(Valid()) && end <= length ==>
                Valid() && Cells() == SetFlags(old(Cells()), begin, end, !isNull)
    {
      ghost var bm0 := nullBitmap;
      var cur := begin;
      var i := (begin + 7) / 8 * 8;
      cur := setNullsBitwise(cur, i, end, isNull, begin, bm0);
      cur := setNullBytes(cur, end, isNull, begin, bm0);
      cur := setNullsBitwise(cur, end, end, isNull, begin, bm0);
      if old(Valid()) && end <= length {
        CellsReflag(length, bm0, nullBitmap, offsets, data, elemBuf, begin, end, !isNull);
      }
    }

    /**
     * The bit-by-bit loops of SetNulls: rows from cur on, while below both stop
     * and end, are set one SetNull at a time. Rows begin .. cur-1 are already
     * set, every other bit is still bm0's.
     */
    method setNullsBitwise(cur0: nat, stop: nat, end: nat, isNull: bool, ghost begin: nat, ghost bm0: seq<bv8>)
        returns (cur: nat)
      requires end <= 8 * |nullBitmap| && |nullBitmap| == |bm0|
      requires begin <= cur0 && (cur0 <= end || cur0 == begin)
      requires forall j: nat | j < 8 * |nullBitmap| :: Bit(nullBitmap, j) == if begin <= j < cur0 then !isNull else Bit(bm0, j)
      modifies this`nullBitmap
      ensures begin <= cur && (cur <= end || cur == begin) && (cur >= stop || cur >= end) && |nullBitmap| == |bm0|
      ensures cur0 <= stop ==> cur <= stop
      ensures forall j: nat | j < 8 * |nullBitmap| :: Bit(nullBitmap, j) == if begin <= j < cur then !isNull else Bit(bm0, j)
    {
      cur := cur0;
      while cur < stop && cur < end
        invariant cur0 <= cur && (cur <= end || cur == begin) && |nullBitmap| == |bm0|
        invariant cur0 <= stop ==> cur <= stop
        invariant forall j: nat | j < 8 * |nullBitmap| :: Bit(nullBitmap, j) == if begin <= j < cur then !isNull else Bit(bm0, j)
      {
        SetNull(cur, isNull);
        cur := cur + 1;
      }
    }

    /** The whole-byte loop of SetNulls: from a byte boundary, eight rows per byte while they end by end. */
    method setNullBytes(cur0: nat, end: nat, isNull: bool, ghost begin: nat, ghost bm0: seq<bv8>) returns (cur: nat)
      requires end <= 8 * |nullBitmap| && |nullBitmap| == |bm0|
      requires begin <= cur0 && (cur0 <= end || cur0 == begin) && (cur0 < end ==> cur0 % 8 == 0)
      requires forall j: nat | j < 8 * |nullBitmap| :: Bit(nullBitmap, j) == if begin <= j < cur0 then !isNull else Bit(bm0, j)
      modifies this`nullBitmap
      ensures begin <= cur && (cur <= end || cur == begin) && cur + 8 > end && |nullBitmap| == |bm0|
      ensures forall j: nat | j < 8 * |nullBitmap| :: Bit(nullBitmap, j) == if begin <= j < cur then !isNull else Bit(bm0, j)
    {
      var v := FillByte(!isNull);
      cur := cur0;
      while cur + 8 <= end
        invariant begin <= cur && (cur <= end || cur == begin) && |nullBitmap| == |bm0|
        invariant cur < end ==> cur % 8 == 0
        invariant forall j: nat | j < 8 * |nullBitmap| :: Bit(nullBitmap, j) == if begin <= j < cur then !isNull else Bit(bm0, j)
      {
        ghost var bm := nullBitmap;
        nullBitmap := nullBitmap[cur / 8 := v];
        WriteRunByte(bm0, bm, begin, cur, v, !isNull, nullBitmap);
        cur := cur + 8;
      }
    }

    /** nullCount: the number of null rows, a byte at a time with bits.OnesCount8, then bit by bit. */
    method nullCount() returns (cnt: nat)
      requires Valid()
      ensures cnt == CountNulls(Values())
    {
      var i;
      i, cnt := nullBytes();
      cnt := nullBits(i, cnt);
      NullsInRows(length, nullBitmap, offsets, data, elemBuf);
    }

    /** nullCount's second loop: the rows after the last whole byte, one bit at a time. */
    method nullBits(i0: nat, cnt0: nat) returns (cnt: nat)
      requires i0 <= length <= 8 * |nullBitmap| && cnt0 == NullsIn(nullBitmap, 0, i0)
      ensures cnt == NullsIn(nullBitmap, 0, length)
    {
      var i := i0;
      cnt := cnt0;
      while i < length
        invariant i <= length
        invariant cnt == NullsIn(nullBitmap, 0, i)
      {
        if IsNull(i) {
          cnt := cnt + 1;
        }
        i := i + 1;
      }
    }

    /** nullCount's first loop: the zero bits of the whole bytes among the first length rows. */
    method nullBytes() returns (i: nat, cnt: nat)
      requires length <= 8 * |nullBitmap|
      ensures i <= length && i % 8 == 0 && length < i + 8
      ensures cnt == NullsIn(nullBitmap, 0, i)
    {
      i, cnt := 0, 0;
      ghost var q := 0;
      while i + 8 <= length
        invariant i == 8 * q && i <= length
        invariant cnt == NullsIn(nullBitmap, 0, i)
      {
        assert q < |nullBitmap| && i / 8 == q;
        WholeByteNulls(nullBitmap, q);
        NullsInSplit(nullBitmap, 0, i, i + 8);
        cnt := cnt + (8 - OnesCount8(nullBitmap[i / 8]));
        i := i + 8;
        q := q + 1;
      }
    }

    /**
     * One step of the fixed-length half of reconstruct: row src moves to row
     * dst <= src. A not-null row's element is copied down; a null row only
     * gets its bit cleared. The bit updates are SetNull's.
     */
    method moveFixedRow(dst: nat, src: nat)
      requires elemBuf.Some? && DataOk(length, offsets, data, elemBuf)
      requires dst <= src < length <= 8 * |nullBitmap|
      modifies this`data, this`nullBitmap
      ensures |nullBitmap| == |old(nullBitmap)| && DataOk(length, offsets, data, elemBuf)
      ensures forall k: nat | k < 8 * |nullBitmap| ::
                Bit(nullBitmap, k) == if k == dst then Bit(old(nullBitmap), src) else Bit(old(nullBitmap), k)
      ensures var raws := old(RawsOf(length, offsets, data, elemBuf));
        RawsOf(length, offsets, data, elemBuf) == if Bit(old(nullBitmap), src) then raws[dst := raws[src]] else raws
    {
      ghost var bm := nullBitmap;
      ghost var raws := RawsOf(length, offsets, data, elemBuf);
      var elemLen := |elemBuf.value|;
      if IsNull(src) {
        SetNull(dst, true);
      } else {
        BlockInRange(src, length, elemLen);
        BlockInRange(dst, length, elemLen);
        var e := data[src * elemLen .. src * elemLen + elemLen];
        assert e == raws[src];
        ghost var d := data;
        data := data[..dst * elemLen] + e + data[dst * elemLen + elemLen..];
        assert DataOk(length, offsets, data, elemBuf) && RawsOf(length, offsets, data, elemBuf) == raws[dst := e] by {
          RawsReplaceFixed(length, offsets, d, elemBuf, dst, e);
        }
        SetNull(dst, false);
      }
    }

    /** The fixed-length half of reconstruct: row sel[j] moves to row j. */
    method reconstructFixed(sel: seq<int>)
      requires Valid() && elemBuf.Some? && StrictlyIncreasing(sel) && InRange(sel, length)
      modifies this`data, this`nullBitmap
      ensures |nullBitmap| == |old(nullBitmap)| && |sel| <= length <= 8 * |nullBitmap|
      ensures forall k: nat | k < |sel| :: Bit(nullBitmap, k) == Bit(old(nullBitmap), sel[k])
      ensures DataOk(|sel|, offsets, data, elemBuf)
      ensures forall k | 0 <= k < |sel| :: Bit(old(nullBitmap), sel[k]) ==>
                RawsOf(|sel|, offsets, data, elemBuf)[k] == old(RawsOf(length, offsets, data, elemBuf))[sel[k]]
    {
      ghost var bm0 := nullBitmap;
      ghost var raws0 := RawsOf(length, offsets, data, elemBuf);
      SelectionLength(sel, length);
      var elemLen := |elemBuf.value|;
      var j := 0;
      while j < |sel|
        invariant 0 <= j <= |sel| <= length <= 8 * |nullBitmap| && |nullBitmap| == |bm0|
        invariant DataOk(length, offsets, data, elemBuf)
        invariant forall k: nat | k < 8 * |bm0| :: Bit(nullBitmap, k) == if k < j then Bit(bm0, sel[k]) else Bit(bm0, k)
        invariant forall k | j <= k < length :: RawsOf(length, offsets, data, elemBuf)[k] == raws0[k]
        invariant forall k | 0 <= k < j :: Bit(bm0, sel[k]) ==> RawsOf(length, offsets, data, elemBuf)[k] == raws0[sel[k]]
      {
        IncreasingLowerBound(sel, length, j);
        ghost var (bm, raws) := (nullBitmap, RawsOf(length, offsets, data, elemBuf));
        moveFixedRow(j, sel[j]);
        FixedMoveStep(length, sel, bm0, raws0, j, bm, raws, nullBitmap, RawsOf(length, offsets, data, elemBuf));
        j := j + 1;
      }
      RawsTruncateFixed(length, offsets, data, elemBuf, |sel|);
      data := data[..|sel| * elemLen];
    }

    /**
     * One step of the variable-length half of reconstruct: row src moves to
     * row dst <= src, whose bytes start at tail, and the new tail is returned.
     * A not-null row's bytes are copied down to tail; a null row keeps none.
     * The start offset of row dst is written only after row src's offsets
     * have been read (ReconstructVarAsWritten models the order the Go code uses).
     */
    method moveVarRow(dst: nat, src: nat, tail: nat) returns (newTail: nat)
      requires elemBuf.None? && dst <= src && src + 1 < |offsets| && src < 8 * |nullBitmap|
      requires tail <= offsets[src] <= offsets[src + 1] <= |data|
      modifies this`data, this`offsets, this`nullBitmap
      ensures |nullBitmap| == |old(nullBitmap)|
      ensures forall k: nat | k < 8 * |nullBitmap| ::
                Bit(nullBitmap, k) == if k == dst then Bit(old(nullBitmap), src) else Bit(old(nullBitmap), k)
      ensures offsets == old(offsets)[dst := tail]
      ensures var e := if Bit(old(nullBitmap), src) then old(data[offsets[src] .. offsets[src + 1]]) else [];
        newTail == tail + |e| && |data| == |old(data)| &&
        data[..newTail] == old(data[..tail]) + e && data[newTail..] == old(data[newTail..])
    {
      if IsNull(src) {
        SetNull(dst, true);
        offsets := offsets[dst := tail];
        newTail := tail;
      } else {
        var start, end := offsets[src], offsets[src + 1];
        data := data[..tail] + data[start .. end] + data[tail + (end - start)..];
        newTail := tail + (end - start);
        offsets := offsets[dst := tail];
        SetNull(dst, false);
      }
    }

    /**
     * One iteration of reconstructVar: selected row j moves to row j, keeping the packing.
     * Here and in packVarRows the packing state is compared with true, so that the verifier
     * carries it as one fact from call to call instead of splitting it into its conjuncts.
     */
    method packVarRow(sel: seq<int>, j: nat, tail: nat, ghost bm0: seq<bv8>, ghost offs0: seq<int>, ghost d0: seq<Byte>)
        returns (newTail: nat)
      requires elemBuf.None? && length <= 8 * |bm0| && DataOk(length, offs0, d0, None)
      requires StrictlyIncreasing(sel) && InRange(sel, length) && j < |sel|
      requires VarPacked(length, sel, bm0, offs0, d0, j, tail, nullBitmap, offsets, data) == true
      modifies this`data, this`offsets, this`nullBitmap
      ensures VarPacked(length, sel, bm0, offs0, d0, j + 1, newTail, nullBitmap, offsets, data) == true
    {
      VarPackedNext(length, sel, bm0, offs0, d0, j, tail, nullBitmap, offsets, data);
      ghost var (bm, offs, d) := (nullBitmap, offsets, data);
      newTail := moveVarRow(j, sel[j], tail);
      VarPackedStep(length, sel, bm0, offs0, d0, j, tail, bm, offs, d, newTail, nullBitmap, offsets, data);
    }

    /** The loop of reconstructVar: every selected row is packed, and the returned tail ends their bytes. */
    method packVarRows(sel: seq<int>) returns (tail: nat)
      requires elemBuf.None? && length <= 8 * |nullBitmap| && DataOk(length, offsets, data, None)
      requires StrictlyIncreasing(sel) && InRange(sel, length)
      modifies this`data, this`offsets, this`nullBitmap
      ensures VarPacked(length, sel, old(nullBitmap), old(offsets), old(data), |sel|, tail, nullBitmap, offsets, data) == true
    {
      ghost var (bm0, offs0, d0) := (nullBitmap, offsets, data);
      VarPackedStart(length, sel, bm0, offs0, d0);
      tail := 0;
      var j := 0;
      while j < |sel|
        invariant j <= |sel|
        invariant VarPacked(length, sel, bm0, offs0, d0, j, tail, nullBitmap, offsets, data) == true
      {
        tail := packVarRow(sel, j, tail, bm0, offs0, d0);
        j := j + 1;
      }
    }

    /** The variable-length half of reconstruct: row sel[j] moves to row j, its bytes packed after row j - 1's. */
    method reconstructVar(sel: seq<int>)
      requires Valid() && elemBuf.None? && StrictlyIncreasing(sel) && InRange(sel, length)
      modifies this`data, this`offsets, this`nullBitmap
      ensures |nullBitmap| == |old(nullBitmap)| && |sel| <= length <= 8 * |nullBitmap|
      ensures forall k: nat | k < |sel| :: Bit(nullBitmap, k) == Bit(old(nullBitmap), sel[k])
      ensures DataOk(|sel|, offsets, data, None)
      ensures RawsOf(|sel|, offsets, data, None) ==
                old(KeptRaws(Flags(nullBitmap, length), RawsOf(length, offsets, data, None), sel))
    {
      ghost var (bm0, offs0, d0) := (nullBitmap, offsets, data);
      SelectionLength(sel, length);
      var tail := packVarRows(sel);
      VarPackedDone(length, sel, bm0, offs0, d0, tail, nullBitmap, offsets, data);
      offsets := offsets[|sel| := tail];
      offsets := offsets[..|sel| + 1];
      data := data[..tail];
    }

    /** Both halves of reconstruct: row sel[k] moves to row k, and the data is cut to |sel| rows. */
    method moveSelected(sel: seq<int>)
      requires Valid() && StrictlyIncreasing(sel) && InRange(sel, length)
      modifies this`data, this`offsets, this`nullBitmap
      ensures |nullBitmap| == |old(nullBitmap)| && |sel| <= length <= 8 * |nullBitmap|
      ensures forall k: nat | k < |sel| :: Bit(nullBitmap, k) == Bit(old(nullBitmap), sel[k])
      ensures DataOk(|sel|, offsets, data, elemBuf)
      ensures forall k | 0 <= k < |sel| :: Bit(old(nullBitmap), sel[k]) ==>
                RawsOf(|sel|, offsets, data, elemBuf)[k] == old(RawsOf(length, offsets, data, elemBuf))[sel[k]]
    {
      if isFixed() {
        reconstructFixed(sel);
      } else {
        ghost var (bm0, offs0, d0) := (nullBitmap, offsets, data);
        reconstructVar(sel);
        KeptRawsSelected(Flags(bm0, length), RawsOf(length, offs0, d0, None), sel);
      }
    }

    /**
     * reconstruct's clean-up of the bitmap for n rows: cut it to ceil(n / 8)
     * bytes and clear the bits after row n - 1 in the last one.
     */
    method trimNullBitmap(n: nat)
      requires (n + 7) / 8 <= |nullBitmap|
      modifies this`nullBitmap
      ensures Canonical(nullBitmap, n) && forall k: nat | k < n :: Bit(nullBitmap, k) == Bit(old(nullBitmap), k)
    {
      ghost var bm := nullBitmap;
      nullBitmap := nullBitmap[..(n + 7) / 8];
      var idx := n / 8;
      if idx < |nullBitmap| {
        nullBitmap := nullBitmap[idx := nullBitmap[idx] & LowMask(n % 8)];
      }
      TrimBitmap(bm, n, nullBitmap);
    }

    /**
     * reconstruct: keep only the rows sel names, in order; a nil selection
     * keeps the column as it is. The rows move down in place, then the data,
     * the offsets and the bitmap are cut to |sel| rows, and the padding bits
     * of the bitmap's last byte are cleared.
     */
    method reconstruct(sel: Option<seq<int>>)
      requires Valid()
      requires sel.Some? ==> StrictlyIncreasing(sel.value) && InRange(sel.value, length)
      modifies this`length, this`data, this`offsets, this`nullBitmap
      ensures Valid() && elemBuf == old(elemBuf)
      ensures sel.None? ==> length == old(length) && nullBitmap == old(nullBitmap) && offsets == old(offsets) && data == old(data)
      ensures sel.Some? ==> length == |sel.value| && Values() == Select(old(Values()), sel.value)
    {
      if sel.None? {
        return;
      }
      var s := sel.value;
      ghost var (bm0, offs0, d0) := (nullBitmap, offsets, data);
      moveSelected(s);
      trimNullBitmap(|s|);
      SelectedRows(length, bm0, offs0, d0, elemBuf, s, nullBitmap, offsets, data);
      length := |s|;
    }

    /** The zero value `&Column{}`: no rows and every buffer nil. */
    constructor Zero()
      ensures length == 0 && nullBitmap == [] && offsets == [] && data == [] && elemBuf == None
    {
      length := 0;
      nullBitmap := [];
      offsets := [];
      data := [];
      elemBuf := None;
    }

    /**
     * CopyConstruct: dst (or, when dst is nil, a new column) gets this
     * column's length and a copy of each of its buffers. elemBuf is copied
     * as it is, nil included; see AppendToEmpty for what Go's append makes
     * of a nil elemBuf.
     */
    method CopyConstruct(dst: Column?) returns (r: Column)
      modifies dst
      ensures dst != null ==> r == dst
      ensures dst == null ==> fresh(r)
      ensures r.length == old(length) && r.nullBitmap == old(nullBitmap) && r.offsets == old(offsets)
      ensures r.data == old(data) && r.elemBuf == old(elemBuf)
      ensures old(Valid()) ==> r.Valid() && r.Cells() == old(Cells()) && r.Values() == old(Values())
    {
      if dst != null {
        r := dst;
      } else {
        r := new Column.Zero();
      }
      var (n, bm, offs, d, eb) := (length, nullBitmap, offsets, data, elemBuf);
      r.length := n;
      r.nullBitmap := bm;
      r.offsets := offs;
      r.data := d;
      r.elemBuf := eb;
    }

    /**
     * One selected row appended by CopyReconstruct: its bit, its bytes and,
     * in a variable-length column, its end offset; then the row is counted.
     */
    method appendCell(notNull: bool, e: seq<Byte>)
      requires Valid() && (elemBuf.Some? ==> |e| == |elemBuf.value|)
      modifies this
      ensures Valid() && elemBuf == old(elemBuf)
      ensures Cells() == old(Cells()) + [Cell(notNull, e)]
    {
      ghost var (n, bm, offs, d) := (length, nullBitmap, offsets, data);
      appendNullBitmap(notNull);
      if elemBuf.Some? {
        RawsAppendFixed(n, offs, d, elemBuf, e);
        data := data + e;
      } else {
        RawsAppendVar(n, offs, d, e);
        data := data + e;
        offsets := offsets + [|data|];
      }
      CellsAppended(n, bm, offs, d, elemBuf, nullBitmap, 1, notNull, offsets, data, elemBuf, [e]);
      length := length + 1;
    }

    /** The loop of CopyReconstruct: dst gets the selected rows, in the selection's order. */
    method copySelected(sel: seq<int>, dst: Column)
      requires Valid() && InRange(sel, length) && dst != this
      requires dst.Valid() && dst.Cells() == [] && SameKind(dst.elemBuf, elemBuf)
      modifies dst
      ensures dst.Valid() && dst.elemBuf == old(dst.elemBuf)
      ensures dst.Cells() == Select(Cells(), sel)
    {
      var k := 0;
      while k < |sel|
        invariant k <= |sel| && dst.Valid() && dst.elemBuf == old(dst.elemBuf)
        invariant dst.Cells() == Select(Cells(), sel[..k])
      {
        var i := sel[k];
        var notNull := !IsNull(i);
        var e := GetRaw(i);
        SelectStep(Cells(), sel, k);
        dst.appendCell(notNull, e);
        k := k + 1;
      }
      assert sel[..k] == sel;
    }

    /**
     * CopyReconstruct: dst (or a new column) gets the rows sel names, in
     * sel's order, with this column's type; a nil selection, or an
     * ascending one that names every row, copies the whole column. This
     * column is not changed.
     */
    method CopyReconstruct(sel: Option<seq<int>>, dst: Column?) returns (r: Column)
      requires Valid()
      requires sel.Some? ==> InRange(sel.value, length)
      requires dst != null ==> dst != this && dst.Valid()
      modifies dst
      ensures dst != null ==> r == dst
      ensures dst == null ==> fresh(r)
      ensures r.Valid() && SameKind(r.elemBuf, elemBuf)
      ensures sel.None? ==> r.length == length && r.nullBitmap == nullBitmap && r.offsets == offsets &&
                            r.data == data && r.elemBuf == elemBuf
      ensures sel.Some? && |sel.value| == length && StrictlyIncreasing(sel.value) ==>
                r.length == length && r.nullBitmap == nullBitmap && r.offsets == offsets &&
                r.data == data && r.elemBuf == elemBuf
      ensures r.Cells() == if sel.None? then Cells() else Select(Cells(), sel.value)
      ensures r.Values() == if sel.None? then Values() else Select(Values(), sel.value)
    {
      if sel.None? {
        r := CopyConstruct(dst);
        return;
      }
      var s := sel.value;
      if |s| == length {
        var ascend := ascending(s);
        if ascend {
          FullSelectionIsIdentity(Values(), s);
          FullSelectionIsIdentity(Cells(), s);
          r := CopyConstruct(dst);
          return;
        }
      }
      if dst == null {
        r := NewColumn(typeSize(), |s|);
      } else {
        dst.reset();
        r := dst;
      }
      if isFixed() {
        r.elemBuf := Some(Zeros(|elemBuf.value|));
      } else {
        r.elemBuf := None;
        if |r.offsets| == 0 {
          r.offsets := r.offsets + [0];
        }
      }
      copySelected(s, r);
      SelectRowsOf(Cells(), s);
    }

    /**
     * MergeNulls: a row becomes null when it is null here or in any of cols.
     * A variable-length receiver, or a column of another length, is a panic,
     * raised before anything changes.
     */
    method MergeNulls(cols: seq<Column>) returns (outcome: Outcome)
      requires Valid() && forall c | c in cols :: c.Valid()
      modifies this`nullBitmap
      ensures outcome.Fail? <==> !isFixed() || exists c | c in cols :: c.length != length
      ensures outcome.Fail? ==> nullBitmap == old(nullBitmap)
      ensures Valid()
      ensures outcome.Pass? ==> forall r | 0 <= r < length ::
                IsNull(r) == (old(IsNull(r)) || exists c | c in cols :: old(r < 8 * |c.nullBitmap| && c.IsNull(r)))
      ensures outcome.Pass? ==> forall r | 0 <= r < length ::
                Values()[r] == if IsNull(r) then None else old(Values()[r])
    {
      if !isFixed() {
        return Fail("result column should be fixed-length type");
      }
      var same := sameLength(cols);
      if !same {
        return Fail("should ensure all columns have the same length");
      }
      outcome := Pass;
      mergeNulls(cols);
    }

    /** MergeNulls' first loop: every column has this one's length. */
    method sameLength(cols: seq<Column>) returns (same: bool)
      ensures same <==> forall c | c in cols :: c.length == length
    {
      var k := 0;
      while k < |cols|
        invariant k <= |cols| && forall j | 0 <= j < k :: cols[j].length == length
      {
        if length != cols[k].length {
          return false;
        }
        k := k + 1;
      }
      return true;
    }

    /** MergeNulls once its checks pass: the flags ANDed, the bytes kept. */
    method mergeNulls(cols: seq<Column>)
      requires Valid() && forall c | c in cols :: c.Valid() && c.length == length
      modifies this`nullBitmap
      ensures Valid()
      ensures forall r | 0 <= r < length :: IsNull(r) == (old(IsNull(r)) || exists c | c in cols :: old(r < 8 * |c.nullBitmap| && c.IsNull(r)))
      ensures forall r | 0 <= r < length :: Values()[r] == if IsNull(r) then None else old(Values()[r])
    {
      ghost var bm0 := nullBitmap;
      mergeBitmaps(cols);
      CellsReflagged(length, bm0, nullBitmap, offsets, data, elemBuf);
    }

    /** The merging loop of MergeNulls, once every column has this one's length: one AND pass per column. */
    method mergeBitmaps(cols: seq<Column>)
      requires Canonical(nullBitmap, length) && forall c | c in cols :: Canonical(c.nullBitmap, length)
      modifies this`nullBitmap
      ensures Canonical(nullBitmap, length) && |nullBitmap| == |old(nullBitmap)|
      ensures forall i: nat | i < 8 * |nullBitmap| ::
                Bit(nullBitmap, i) == (Bit(old(nullBitmap), i) && forall c | c in cols :: i < 8 * |old(c.nullBitmap)| && Bit(old(c.nullBitmap), i))
    {
      ghost var bm0 := nullBitmap;
      var k := 0;
      while k < |cols|
        invariant k <= |cols| && |nullBitmap| == |bm0| && Canonical(nullBitmap, length)
        invariant forall i: nat | i < 8 * |bm0| ::
                    Bit(nullBitmap, i) == (Bit(bm0, i) && forall c | c in cols[..k] :: i < 8 * |old(c.nullBitmap)| && Bit(old(c.nullBitmap), i))
      {
        assert cols[..k + 1] == cols[..k] + [cols[k]];
        andNullBitmap(cols[k].nullBitmap, length);
        k := k + 1;
      }
      assert cols[..k] == cols;
    }

    /**
     * The inner loop of MergeNulls: the bitmap ANDed byte by byte with
     * other's. (Go reads other's byte i just before writing byte i, so when
     * other is this column's own bitmap it still sees the old byte.)
     */
    method andNullBitmap(other: seq<bv8>, n: nat)
      requires |other| == |nullBitmap|
      modifies this`nullBitmap
      ensures |nullBitmap| == |old(nullBitmap)|
      ensures forall i: nat | i < 8 * |nullBitmap| :: Bit(nullBitmap, i) == (Bit(old(nullBitmap), i) && Bit(other, i))
      ensures Canonical(old(nullBitmap), n) ==> Canonical(nullBitmap, n)
    {
      ghost var bm := nullBitmap;
      var i := 0;
      while i < |nullBitmap|
        invariant i <= |nullBitmap| == |bm|
        invariant forall q | 0 <= q < |bm| :: nullBitmap[q] == if q < i then bm[q] & other[q] else bm[q]
      {
        nullBitmap := nullBitmap[i := nullBitmap[i] & other[i]];
        i := i + 1;
      }
      AndBitmap(bm, other, nullBitmap, n);
    }

    /**
     * ContainsVeryLargeElement: whether a variable-length column has a row
     * of more than MaxUint32 bytes (null rows included). The loop is skipped
     * when the whole data buffer is no longer than that.
     */
    method ContainsVeryLargeElement() returns (r: bool)
      requires Valid()
      ensures r <==> elemBuf.None? && exists i | 0 <= i < length :: |Cells()[i].raw| > MaxUint32
    {
      if length == 0 {
        return false;
      }
      if isFixed() {
        return false;
      }
      if offsets[length] <= MaxUint32 {
        forall i | 0 <= i < length
          ensures |Cells()[i].raw| <= MaxUint32
        {
          assert offsets[0] <= offsets[i] <= offsets[i + 1] <= offsets[length];
        }
        return false;
      }
      var i := 0;
      while i < length
        invariant i <= length
        invariant forall k | 0 <= k < i :: |Cells()[k].raw| <= MaxUint32
      {
        if offsets[i + 1] - offsets[i] > MaxUint32 {
          assert |Cells()[i].raw| > MaxUint32;
          return true;
        }
        i := i + 1;
      }
      return false;
    }
  }

  /** newColumn: a fixed-length column of width ts, or a variable-length one for VarElemLen. */
  method NewColumn(ts: int, capacity: nat) returns (c: Column)
    requires ts == VarElemLen || ts >= 0
    ensures fresh(c) && c.Valid() && c.Cells() == []
    ensures c.elemBuf == if ts == VarElemLen then None else Some(Zeros(ts))
  {
    if ts == VarElemLen {
      c := new Column.NewVarLen();
    } else {
      c := new Column.NewFixedLen(ts);
    }
  }

  /** CopyReconstruct's ascend test as written: it stops only at a row index below the one before it. */
  method ascendAsWritten(sel: seq<int>) returns (ascend: bool)
    ensures ascend <==> NonDecreasing(sel)
  {
    ascend := true;
    var i := 1;
    while i < |sel|
      invariant 1 <= i && (|sel| > 0 ==> i <= |sel|)
      invariant forall a, b | 0 <= a < b < i && b < |sel| :: sel[a] <= sel[b]
    {
      if sel[i] < sel[i - 1] {
        ascend := false;
        break;
      }
      i := i + 1;
    }
  }

  /** The ascend test CopyReconstruct needs: every row index above the one before it. */
  method ascending(sel: seq<int>) returns (ascend: bool)
    ensures ascend <==> StrictlyIncreasing(sel)
  {
    ascend := true;
    var i := 1;
    while i < |sel|
      invariant 1 <= i && (|sel| > 0 ==> i <= |sel|)
      invariant forall a, b | 0 <= a < b < i && b < |sel| :: sel[a] < sel[b]
    {
      if sel[i] <= sel[i - 1] {
        ascend := false;
        break;
      }
      i := i + 1;
    }
  }
}
