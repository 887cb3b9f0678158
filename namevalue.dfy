/**
 * The row format of Enum and Set columns: the 8 bytes of the uint64 value
 * as they lie in memory, followed by the bytes of the name. The value is
 * copied byte for byte in both directions; the model fixes little-endian
 * order, the order of the hosts the code runs on.
 */
module NameValueCodec {
  import opened Wrappers

  type Uint64 = x: nat | x < 0x1_0000_0000_0000_0000

  /** types.Enum and types.Set: a name and its numeric value. */
  datatype NameValue = NameValue(name: seq<Byte>, value: Uint64)

  function Pow256(k: nat): (r: nat)
    ensures r >= 1
  {
    if k == 0 then 1 else 256 * Pow256(k - 1)
  }

  /** The width lowest bytes of v, least significant first. */
  function LittleEndian(v: nat, width: nat): (r: seq<Byte>)
    ensures |r| == width
  {
    if width == 0 then [] else [v % 256] + LittleEndian(v / 256, width - 1)
  }

  /** The number whose little-endian bytes are s; it fits in |s| bytes. */
  function FromLittleEndian(s: seq<Byte>): (r: nat)
    ensures r < Pow256(|s|)
  {
    if s == [] then 0 else s[0] + 256 * FromLittleEndian(s[1..])
  }

  lemma {:induction false} LittleEndianRoundTrip(v: nat, width: nat)
    requires v < Pow256(width)
    ensures FromLittleEndian(LittleEndian(v, width)) == v
  {
    if width > 0 {
      LittleEndianRoundTrip(v / 256, width - 1);
      var s := LittleEndian(v, width);
      assert s[1..] == LittleEndian(v / 256, width - 1);
    }
  }

  lemma {:induction false} FromLittleEndianRoundTrip(s: seq<Byte>)
    ensures LittleEndian(FromLittleEndian(s), |s|) == s
  {
    if s != [] {
      FromLittleEndianRoundTrip(s[1..]);
      var v := FromLittleEndian(s);
      assert v % 256 == s[0] && v / 256 == FromLittleEndian(s[1..]);
    }
  }

  /** appendNameValue's row bytes. */
  function Encode(nv: NameValue): (r: seq<Byte>)
    ensures |r| == 8 + |nv.name|
  {
    LittleEndian(nv.value, 8) + nv.name
  }

  /**
   * getNameValue: an empty row reads as the empty name with value 0; any
   * other row must hold at least the 8 value bytes (a shorter one makes the
   * Go slice expression panic).
   */
  function Decode(raw: seq<Byte>): (r: NameValue)
    requires |raw| == 0 || |raw| >= 8
    ensures |raw| == 0 ==> r == NameValue([], 0)
    ensures |raw| >= 8 ==> Encode(r) == raw
  {
    if |raw| == 0 then NameValue([], 0)
    else
      assert Pow256(8) == 0x1_0000_0000_0000_0000;
      FromLittleEndianRoundTrip(raw[..8]);
      assert raw == raw[..8] + raw[8..];
      NameValue(raw[8..], FromLittleEndian(raw[..8]))
  }

  /** A row written by AppendEnum or AppendSet reads back as the same name and value. */
  lemma RoundTrip(nv: NameValue)
    ensures Decode(Encode(nv)) == nv
  {
    var raw := Encode(nv);
    assert raw[..8] == LittleEndian(nv.value, 8) && raw[8..] == nv.name;
    assert Pow256(8) == 0x1_0000_0000_0000_0000;
    LittleEndianRoundTrip(nv.value, 8);
  }

}
