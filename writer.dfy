/**
 * The GDF block writer: fixed-width names, type tags, ASCII blocks, scalar and
 * array double blocks, and the pieces of the root record. Both converters carry
 * a copy of these writers; the model has one.
 */
module Writer {
  import opened Wrappers
  import opened Bytes
  import opened Text
  import opened Sink

  const GDFID: int := 94325877
  const GDFNAMELEN: nat := 16

  // Structural block types.
  const DIRECTORY: bv32 := 256
  const EDIR: bv32 := 512
  const SINGLE_VALUE: bv32 := 1024
  const ARRAY: bv32 := 2048
  // Content block types.
  const ASCII_CHARACTER: bv32 := 0x0001
  const SIGNED_LONG: bv32 := 0x0002
  const DOUBLE_TYPE: bv32 := 0x0003
  const NO_DATA: bv32 := 0x0010

  /** The tags the writers use, as literals. */
  const ASCII_TAG: int := 1025
  const ARRAY_DOUBLE_TAG: int := 2051
  const TIME_TAG: int := 1283

  /** Each literal tag is a structural type or-ed with a content type. */
  lemma TagsAreBlockTypes()
    ensures ASCII_TAG == (SINGLE_VALUE | ASCII_CHARACTER) as int
    ensures ARRAY_DOUBLE_TAG == (ARRAY | DOUBLE_TYPE) as int
    ensures TIME_TAG == (SINGLE_VALUE | DIRECTORY | DOUBLE_TYPE) as int
  {
  }

  // ---------------------------------------------------------------- integers

  /** `gdf_file.write(struct.pack('i', v))`. */
  function Int32Field(v: int): Emission {
    if FitsInt32(v) then Done(PackInt32(v)) else Fail(OutOfRange)
  }

  /** An int32 field is four bytes that read back as the value, or raises before writing anything. */
  lemma Int32FieldRoundTrip(v: int)
    ensures Int32Field(v).status == Ok <==> FitsInt32(v)
    ensures Int32Field(v).status == Ok ==> |Int32Field(v).out| == 4 && UnpackInt32(Int32Field(v).out) == v
    ensures Int32Field(v).status != Ok ==> Int32Field(v) == Fail(OutOfRange)
  {
    if FitsInt32(v) {
      Int32RoundTrip(v);
    }
  }

  method WriteInt32(f: GdfFile, v: int) returns (st: Status)
    modifies f
    ensures f.bytes == old(f.bytes) + Int32Field(v).out && st == Int32Field(v).status
  {
    if FitsInt32(v) {
      f.Write(PackInt32(v));
      st := Ok;
    } else {
      st := Raised(OutOfRange);
    }
  }

  /** `struct.pack('B', v)`: one unsigned byte, or nothing when v is outside [0, 256). */
  function PackUInt8(v: int): (r: Option<byte>)
    ensures r.Some? <==> 0 <= v < 256
    ensures r.Some? ==> r.value as int == v
  {
    if 0 <= v < 256 then Some(v as byte) else None
  }

  // ---------------------------------------------------------------- names

  /** The name after the padding loop: NULs appended up to GDFNAMELEN characters, never cut. */
  function Padded(name: string): string {
    if |name| < GDFNAMELEN then name + Nuls(GDFNAMELEN - |name|) else name
  }

  /** The index of the first non-ASCII character of s, or |s|. */
  function FirstNonAscii(s: string): (k: nat)
    ensures k <= |s|
    ensures forall i :: 0 <= i < k ==> IsAscii(s[i])
    ensures k < |s| ==> !IsAscii(s[k])
  {
    if s == [] || !IsAscii(s[0]) then 0 else 1 + FirstNonAscii(s[1..])
  }

  /** Packing and writing the characters of s one by one: the first non-ASCII one raises. */
  function CharWrites(s: string): Emission {
    if s == [] then Done([])
    else if !IsAscii(s[0]) then Fail(NotAscii)
    else Then(Done([AsciiByte(s[0])]), CharWrites(s[1..]))
  }

  /** `write_string(name, gdf_file)`. */
  function NameField(name: string): Emission {
    CharWrites(Padded(name))
  }

  /** The padding loop of `write_string`: NULs appended one at a time up to GDFNAMELEN characters. */
  method PadName(name: string) returns (padded: string)
    ensures padded == Padded(name)
  {
    padded := name;
    while |padded| < GDFNAMELEN
      invariant padded == name + Nuls(|padded| - |name|)
      invariant |name| < GDFNAMELEN ==> |padded| <= GDFNAMELEN
      invariant |name| >= GDFNAMELEN ==> padded == name
      decreases GDFNAMELEN - |padded|
    {
      assert Nuls(|padded| + 1 - |name|) == Nuls(|padded| - |name|) + [NUL];
      padded := padded + [NUL];
    }
  }

  method WriteString(f: GdfFile, name: string) returns (st: Status)
    modifies f
    ensures f.bytes == old(f.bytes) + NameField(name).out && st == NameField(name).status
  {
    var padded := PadName(name);
    CharWritesPrefix(padded);
    var i := 0;
    while i < |padded|
      invariant i <= FirstNonAscii(padded)
      invariant f.bytes == old(f.bytes) + AsciiBytes(padded[..i])
    {
      if !IsAscii(padded[i]) {
        return Raised(NotAscii);
      }
      assert AsciiBytes(padded[..i + 1]) == AsciiBytes(padded[..i]) + [AsciiByte(padded[i])];
      f.Write([AsciiByte(padded[i])]);
      i := i + 1;
    }
    st := Ok;
  }

  /** The characters before the first non-ASCII one are written; that one raises. */
  lemma {:induction false} CharWritesPrefix(s: string)
    ensures CharWrites(s).out == AsciiBytes(s[..FirstNonAscii(s)])
    ensures CharWrites(s).status == if FirstNonAscii(s) == |s| then Ok else Raised(NotAscii)
  {
    if s != [] && IsAscii(s[0]) {
      CharWritesPrefix(s[1..]);
      var k := FirstNonAscii(s);
      assert s[..k] == [s[0]] + s[1..][..k - 1];
      assert AsciiBytes(s[..k]) == [AsciiByte(s[0])] + AsciiBytes(s[1..][..k - 1]);
    }
  }

  /**
   * An ASCII name is written in full: shorter than sixteen characters it is followed
   * by NULs up to exactly sixteen bytes; sixteen characters or more it is written
   * unchanged, not truncated.
   */
  lemma NameFieldOfAscii(name: string)
    requires AllAscii(name)
    ensures NameField(name).status == Ok
    ensures |NameField(name).out| == if |name| < GDFNAMELEN then GDFNAMELEN else |name|
    ensures NameField(name).out[..|name|] == AsciiBytes(name)
    ensures forall i :: |name| <= i < |NameField(name).out| ==> NameField(name).out[i] == 0
  {
    var p := Padded(name);
    assert AllAscii(p);
    CharWritesPrefix(p);
    assert FirstNonAscii(p) == |p|;
    assert p[..|p|] == p;
  }

  /** A non-ASCII character raises after the characters before it have been written. */
  lemma NameFieldNotAscii(name: string)
    requires !AllAscii(name)
    ensures NameField(name).status == Raised(NotAscii)
    ensures NameField(name).out == AsciiBytes(name[..FirstNonAscii(name)])
    ensures |NameField(name).out| < |name|
  {
    var p := Padded(name);
    var k := FirstNonAscii(name);
    assert k < |name|;
    assert p[..|name|] == name;
    CharWritesPrefix(p);
    assert FirstNonAscii(p) == k;
    assert p[..k] == name[..k];
  }

  /** The name a reader takes from a name field: the characters before the first NUL. */
  function NameOf(b: seq<byte>): string {
    if b == [] || b[0] == 0 then [] else [(b[0] as int) as char] + NameOf(b[1..])
  }

  /** A name field of an ASCII name of at most sixteen characters without NULs reads back as that name. */
  lemma {:induction false} NameFieldRoundTrip(name: string)
    requires AllAscii(name) && NUL !in name && |name| <= GDFNAMELEN
    ensures |NameField(name).out| == GDFNAMELEN
    ensures NameOf(NameField(name).out) == name
  {
    NameFieldOfAscii(name);
    NameOfPrefix(name, NameField(name).out);
  }

  lemma {:induction false} NameOfPrefix(name: string, b: seq<byte>)
    requires AllAscii(name) && NUL !in name
    requires |name| <= |b| && b[..|name|] == AsciiBytes(name)
    requires |name| < |b| ==> b[|name|] == 0
    ensures NameOf(b) == name
  {
    if name != [] {
      assert b[0] == AsciiByte(name[0]);
      assert b[0] != 0 by { assert name[0] != NUL; }
      forall i | 0 <= i < |name| - 1 ensures b[1..][..|name| - 1][i] == AsciiBytes(name[1..])[i] {
        assert b[i + 1] == b[..|name|][i + 1];
      }
      assert b[1..][..|name| - 1] == AsciiBytes(name[1..]);
      assert NUL !in name[1..] by {
        forall i | 0 <= i < |name| - 1 ensures name[1..][i] != NUL { assert name[1..][i] == name[i + 1]; }
      }
      NameOfPrefix(name[1..], b[1..]);
    } else if |b| > 0 {
      assert b[0] == 0;
    }
  }

  // ---------------------------------------------------------------- ASCII blocks

  /** n NUL bytes. */
  function Zeros(n: nat): (r: seq<byte>)
    ensures |r| == n
    ensures forall i :: 0 <= i < n ==> r[i] == 0
  {
    if n == 0 then [] else [0] + Zeros(n - 1)
  }

  /** `b` NUL-padded or truncated to exactly n bytes, as the 's' format of struct.pack does. */
  function PadTo(b: seq<byte>, n: nat): (r: seq<byte>)
    ensures |r| == n
    ensures |b| >= n ==> r == b[..n]
    ensures |b| < n ==> r[..|b|] == b && forall i :: |b| <= i < n ==> r[i] == 0
  {
    if |b| >= n then b[..n] else b + Zeros(n - |b|)
  }

  /** `struct.pack('<size>s', text.encode('ascii'))`, written in one piece. */
  function TextPayload(text: string, size: nat): Emission {
    if AllAscii(text) then Done(PadTo(AsciiBytes(text), size)) else Fail(NotAscii)
  }

  method WriteText(f: GdfFile, text: string, size: nat) returns (st: Status)
    modifies f
    ensures f.bytes == old(f.bytes) + TextPayload(text, size).out && st == TextPayload(text, size).status
  {
    if AllAscii(text) {
      f.Write(PadTo(AsciiBytes(text), size));
      st := Ok;
    } else {
      st := Raised(NotAscii);
    }
  }

  /** `write_ascii_name(name, size, gdf_file, text)`: name, tag 1025, size, then the text. */
  function AsciiBlock(name: string, size: nat, text: string): Emission {
    Then(Then(Then(NameField(name), Int32Field(ASCII_TAG)), Int32Field(size)), TextPayload(text, size))
  }

  method WriteAsciiName(f: GdfFile, name: string, size: nat, text: string) returns (st: Status)
    modifies f
    ensures f.bytes == old(f.bytes) + AsciiBlock(name, size, text).out
    ensures st == AsciiBlock(name, size, text).status
  {
    ghost var start := f.bytes;
    ghost var done := NameField(name);
    st := WriteString(f, name);
    if st.Raised? { return; }
    Appended(start, done, Int32Field(ASCII_TAG));
    done := Then(done, Int32Field(ASCII_TAG));
    st := WriteInt32(f, ASCII_TAG);
    if st.Raised? { return; }
    Appended(start, done, Int32Field(size));
    done := Then(done, Int32Field(size));
    st := WriteInt32(f, size);
    if st.Raised? { return; }
    Appended(start, done, TextPayload(text, size));
    st := WriteText(f, text, size);
  }

  /**
   * With the size its callers pass, the length of the text, an ASCII block is the
   * 16-byte name, the tag 1025, the length, and exactly the text's bytes; a text
   * that is not ASCII raises after the 24 header bytes and writes none of it.
   */
  lemma AsciiBlockLayout(name: string, text: string)
    requires AllAscii(name) && |name| <= GDFNAMELEN && |text| < 0x8000_0000
    ensures AllAscii(text) ==>
      AsciiBlock(name, |text|, text)
      == Done(NameField(name).out + PackInt32(ASCII_TAG) + PackInt32(|text|) + AsciiBytes(text))
    ensures !AllAscii(text) ==>
      AsciiBlock(name, |text|, text)
      == Emission(NameField(name).out + PackInt32(ASCII_TAG) + PackInt32(|text|), Raised(NotAscii))
    ensures |AsciiBlock(name, |text|, text).out| == 24 + (if AllAscii(text) then |text| else 0)
  {
    NameFieldOfAscii(name);
  }

  // ---------------------------------------------------------------- double blocks

  /** `write_float(name, gdf_file, value)`: name, tag 1283, the length 8, one double. */
  function FloatBlock(name: string, value: Double): Emission {
    Then(Then(Then(NameField(name), Int32Field(TIME_TAG)), Int32Field(8)), Done(EncodeDouble(value)))
  }

  method WriteFloat(f: GdfFile, name: string, value: Double) returns (st: Status)
    modifies f
    ensures f.bytes == old(f.bytes) + FloatBlock(name, value).out && st == FloatBlock(name, value).status
  {
    ghost var start := f.bytes;
    ghost var done := NameField(name);
    st := WriteString(f, name);
    if st.Raised? { return; }
    Appended(start, done, Int32Field(TIME_TAG));
    done := Then(done, Int32Field(TIME_TAG));
    st := WriteInt32(f, TIME_TAG);
    if st.Raised? { return; }
    Appended(start, done, Int32Field(8));
    done := Then(done, Int32Field(8));
    st := WriteInt32(f, 8);
    if st.Raised? { return; }
    Appended(start, done, Done(EncodeDouble(value)));
    f.Write(EncodeDouble(value));
  }

  /**
   * A scalar block with a name of at most sixteen ASCII characters (the source
   * writes one, `time`) is 32 bytes: the name field, the tag 1283, the length 8,
   * and eight bytes that decode to the value.
   */
  lemma FloatBlockLayout(name: string, value: Double)
    requires AllAscii(name) && |name| <= GDFNAMELEN
    ensures FloatBlock(name, value).status == Ok
    ensures FloatBlock(name, value).out == NameField(name).out + PackInt32(TIME_TAG) + PackInt32(8) + EncodeDouble(value)
    ensures |FloatBlock(name, value).out| == 32
    ensures DecodeDouble(FloatBlock(name, value).out[24..]) == value
  {
    NameFieldOfAscii(name);
    var out := FloatBlock(name, value).out;
    assert out == NameField(name).out + PackInt32(TIME_TAG) + PackInt32(8) + EncodeDouble(value);
    assert out[24..] == EncodeDouble(value);
    DoubleRoundTrip(value);
  }

  /** `write_dataset_header(name, gdf_file)`: the name and the tag 2051. */
  function DatasetHeader(name: string): Emission {
    Then(NameField(name), Int32Field(ARRAY_DOUBLE_TAG))
  }

  method WriteDatasetHeader(f: GdfFile, name: string) returns (st: Status)
    modifies f
    ensures f.bytes == old(f.bytes) + DatasetHeader(name).out && st == DatasetHeader(name).status
  {
    ghost var start := f.bytes;
    st := WriteString(f, name);
    if st.Raised? { return; }
    Appended(start, NameField(name), Int32Field(ARRAY_DOUBLE_TAG));
    st := WriteInt32(f, ARRAY_DOUBLE_TAG);
  }

  /** `gdf_file.write(struct.pack('<count>d', *values))`: raises unless there are exactly count values. */
  function PackDoubles(values: seq<Double>, count: nat): (e: Emission)
    ensures e.status == Ok <==> |values| == count
    ensures e.status == Ok ==> |e.out| == 8 * count && DecodeDoubles(e.out) == values
    ensures e.status != Ok ==> e == Fail(ItemCount)
  {
    if |values| == count then DoublesRoundTrip(values); Done(EncodeDoubles(values)) else Fail(ItemCount)
  }

  method WriteDoubles(f: GdfFile, values: seq<Double>, count: nat) returns (st: Status)
    modifies f
    ensures f.bytes == old(f.bytes) + PackDoubles(values, count).out
    ensures st == PackDoubles(values, count).status
  {
    if |values| == count {
      f.Write(EncodeDoubles(values));
      st := Ok;
    } else {
      st := Raised(ItemCount);
    }
  }

  /** `write_dataset(gdf_file, values)`: the byte length, then the doubles (no name, no tag). */
  function DatasetPayload(values: seq<Double>): Emission {
    Then(Int32Field(8 * |values|), PackDoubles(values, |values|))
  }

  method WriteDataset(f: GdfFile, values: seq<Double>) returns (st: Status)
    modifies f
    ensures f.bytes == old(f.bytes) + DatasetPayload(values).out && st == DatasetPayload(values).status
  {
    ghost var start := f.bytes;
    st := WriteInt32(f, 8 * |values|);
    if st.Raised? { return; }
    Appended(start, Int32Field(8 * |values|), PackDoubles(values, |values|));
    st := WriteDoubles(f, values, |values|);
  }

  /** The length field of a dataset payload announces exactly the payload bytes that follow it. */
  lemma DatasetPayloadLayout(values: seq<Double>)
    ensures FitsInt32(8 * |values|) ==>
      && DatasetPayload(values).status == Ok
      && |DatasetPayload(values).out| == 4 + 8 * |values|
      && UnpackInt32(DatasetPayload(values).out[..4]) == |DatasetPayload(values).out| - 4
      && DecodeDoubles(DatasetPayload(values).out[4..]) == values
    ensures !FitsInt32(8 * |values|) ==> DatasetPayload(values) == Fail(OutOfRange)
  {
    if FitsInt32(8 * |values|) {
      var out := DatasetPayload(values).out;
      assert out[..4] == PackInt32(8 * |values|);
      Int32RoundTrip(8 * |values|);
      assert out[4..] == EncodeDoubles(values);
    }
  }

  // ---------------------------------------------------------------- root record

  /** `add_gdf_id`: the magic number as an int32. */
  function GdfIdField(): Emission {
    Int32Field(GDFID)
  }

  method AddGdfId(f: GdfFile) returns (st: Status)
    modifies f
    ensures f.bytes == old(f.bytes) + GdfIdField().out && st == GdfIdField().status
  {
    st := WriteInt32(f, GDFID);
  }

  /** Every GDF file starts with the bytes 75 4C 9F 05. */
  lemma GdfIdBytes()
    ensures GdfIdField() == Done([0x75, 0x4C, 0x9F, 0x05])
  {
  }

  /** `write_first_block`: the two characters '0', '0', each packed and written. */
  function FirstBlock(): Emission {
    CharWrites("00")
  }

  method WriteFirstBlock(f: GdfFile) returns (st: Status)
    modifies f
    ensures f.bytes == old(f.bytes) + FirstBlock().out && st == FirstBlock().status
  {
    var name := "00";
    for i := 0 to |name|
      invariant f.bytes == old(f.bytes) + AsciiBytes(name[..i])
    {
      assert AsciiBytes(name[..i + 1]) == AsciiBytes(name[..i]) + [AsciiByte(name[i])];
      f.Write([AsciiByte(name[i])]);
    }
    CharWritesPrefix(name);
    assert FirstNonAscii(name) == 2;
    assert name[..2] == name;
    st := Ok;
  }

  /** The sentinel is the two ASCII digits '0' (0x30), not NUL bytes. */
  lemma FirstBlockBytes()
    ensures FirstBlock() == Done([0x30, 0x30])
  {
    CharWritesPrefix("00");
    assert FirstNonAscii("00") == 2;
    assert "00"[..2] == "00";
  }

  /**
   * `add_versions`: a (major, minor) pair of unsigned bytes. Both are packed before
   * either is written, so a value out of range raises with nothing written.
   */
  function VersionField(major: int, minor: int): (e: Emission)
    ensures e.status == Ok <==> 0 <= major < 256 && 0 <= minor < 256
    ensures e.status == Ok ==> |e.out| == 2 && e.out[0] as int == major && e.out[1] as int == minor
    ensures e.status != Ok ==> e == Fail(OutOfRange)
  {
    match (PackUInt8(major), PackUInt8(minor))
    case (Some(hi), Some(lo)) => Done([hi, lo])
    case _ => Fail(OutOfRange)
  }

  method WriteVersion(f: GdfFile, major: int, minor: int) returns (st: Status)
    modifies f
    ensures f.bytes == old(f.bytes) + VersionField(major, minor).out
    ensures st == VersionField(major, minor).status
  {
    var majorBin := PackUInt8(major);
    var minorBin := PackUInt8(minor);
    if majorBin.None? || minorBin.None? {
      return Raised(OutOfRange);
    }
    f.Write([majorBin.value]);
    f.Write([minorBin.value]);
    st := Ok;
  }

  /** The creation time, after the date string has been parsed (the parse itself is not modelled). */
  datatype Timestamp = Unparseable | Seconds(seconds: int)

  /** `add_time_root_attribute`: the seconds as an int32. */
  function TimeField(t: Timestamp): Emission {
    match t
    case Unparseable => Fail(BadTimestamp)
    case Seconds(s) => Int32Field(s)
  }

  method AddTime(f: GdfFile, t: Timestamp) returns (st: Status)
    modifies f
    ensures f.bytes == old(f.bytes) + TimeField(t).out && st == TimeField(t).status
  {
    match t
    case Unparseable => st := Raised(BadTimestamp);
    case Seconds(s) => st := WriteInt32(f, s);
  }
}
