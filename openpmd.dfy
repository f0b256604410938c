/**
 * The openPMD-to-GDF converter: the root record, then for every iteration a `time`
 * scalar and, for every selected particle species, a `var` ASCII block naming it
 * followed by its double-array blocks (momentum, position, mass, charge, weights,
 * macro-particle radius). The openPMD series is handed to the model as values; the
 * floating-point operations the converter applies are parameters.
 */
module OpenPmd {
  import opened Wrappers
  import opened Bytes
  import opened Text
  import opened Sink
  import opened Writer
  import opened Streamer

  const DEFAULT_MAX_CELL_SIZE: nat := 1000000

  /** The names of the blocks the converter writes under fixed names. */
  const TIME: string := "time"
  const VAR: string := "var"
  const NMACRO: string := "nmacro"
  const RMACRO: string := "rmacro"
  const EMPTY: string := "empty"

  /** 1.0 as an IEEE 754 double: the grid spacing used when there are no meshes. */
  const ONE: Double := 0x3FF0_0000_0000_0000

  /** The floating-point operations the converter uses: `*`, `+`, `/ 2.` and `<`. */
  datatype FloatOps = FloatOps(
    mul: (Double, Double) -> Double,
    add: (Double, Double) -> Double,
    half: Double -> Double,
    less: (Double, Double) -> bool)

  // ---------------------------------------------------------------- command line defaults

  /** The settings after the defaults of `hdf_to_gdf` are applied. */
  datatype Settings = Settings(gdfPath: string, maxCellSize: nat, species: string)

  /**
   * `hdf_to_gdf`: a missing output path is the input path without its last three
   * characters (the `.h5`) plus `.gdf`; a missing chunk size is 1000000; a missing
   * species filter is '' (every species).
   */
  function ApplyDefaults(hdfPath: string, gdfPath: Option<string>, maxCellSize: Option<nat>, species: Option<string>): (s: Settings)
    ensures gdfPath.Some? ==> s.gdfPath == gdfPath.value
    ensures gdfPath.None? && EndsWith(hdfPath, ".h5") ==> s.gdfPath == hdfPath[..|hdfPath| - 3] + ".gdf"
    ensures gdfPath.None? && |hdfPath| < 3 ==> s.gdfPath == ".gdf"
    ensures s.maxCellSize == if maxCellSize.Some? then maxCellSize.value else DEFAULT_MAX_CELL_SIZE
    ensures s.species == if species.Some? then species.value else ""
  {
    var gdf := if gdfPath.Some? then gdfPath.value else PySlice(hdfPath, 0, -3) + ".gdf";
    var m := if maxCellSize.Some? then maxCellSize.value else DEFAULT_MAX_CELL_SIZE;
    var sp := if species.Some? then species.value else "";
    Settings(gdf, m, sp)
  }

  // ---------------------------------------------------------------- names

  /** `Name_of_arrays.dict_datasets`: openPMD record paths to GDF array names. */
  const DICT_DATASETS: map<string, string> := map[
    "momentum/x" := "Bx",
    "momentum/y" := "By",
    "momentum/z" := "Bz",
    "position/x" := "x",
    "position/y" := "y",
    "position/z" := "z",
    "id" := "ID",
    "charge" := "q",
    "weighting" := "nmacro",
    "mass" := "m"]

  /** `dict_datasets.get(key)`. */
  function GdfName(key: string): Option<string> {
    if key in DICT_DATASETS then Some(DICT_DATASETS[key]) else None
  }

  /** Every GDF name in the table fits a name field and reads back from it. */
  lemma TableNamesFit(key: string)
    requires GdfName(key).Some?
    ensures AllAscii(GdfName(key).value) && NUL !in GdfName(key).value && |GdfName(key).value| <= GDFNAMELEN
    ensures NameOf(NameField(GdfName(key).value).out) == GdfName(key).value
  {
    NameFieldRoundTrip(GdfName(key).value);
  }

  /** A word character of a regular expression over ASCII text: a letter, a digit or `_`. */
  predicate IsWordChar(c: char) {
    'a' <= c <= 'z' || 'A' <= c <= 'Z' || '0' <= c <= '9' || c == '_'
  }

  /** `re.sub(r'\W+', '', s)` on ASCII text: the word characters, in order. */
  function WordChars(s: string): (r: string)
    ensures |r| <= |s|
    ensures forall i :: 0 <= i < |r| ==> IsWordChar(r[i])
  {
    if s == [] then []
    else if IsWordChar(s[0]) then [s[0]] + WordChars(s[1..])
    else WordChars(s[1..])
  }

  /** `decode_name`: drop the undecodable bytes, then every non-word character. */
  function DecodeName(b: seq<byte>): (s: string)
    ensures |s| <= |b|
    ensures forall i :: 0 <= i < |s| ==> IsWordChar(s[i])
  {
    WordChars(DecodeAsciiIgnore(b))
  }

  lemma {:induction false} WordCharsOfWord(s: string)
    requires forall i :: 0 <= i < |s| ==> IsWordChar(s[i])
    ensures WordChars(s) == s
  {
    if s != [] {
      WordCharsOfWord(s[1..]);
    }
  }

  /** A name made of word characters survives encoding and decoding unchanged. */
  lemma DecodeNameOfWord(s: string)
    requires forall i :: 0 <= i < |s| ==> IsWordChar(s[i])
    ensures AllAscii(s) && DecodeName(AsciiBytes(s)) == s
  {
    assert AllAscii(s);
    DecodeAsciiIgnoreOfAscii(s);
    WordCharsOfWord(s);
  }

  /** `get_particles_name`: the decoded `particlesPath` attribute, 'particles' when absent. */
  function ParticlesName(particlesPath: Option<seq<byte>>): (s: string)
    ensures particlesPath.None? ==> s == "particles"
    ensures particlesPath.Some? ==> s == DecodeName(particlesPath.value)
  {
    match particlesPath
    case None => "particles"
    case Some(b) => DecodeName(b)
  }

  // ---------------------------------------------------------------- the series as values

  /** One axis of the momentum record: its values and their unit. */
  datatype Component = Component(axis: string, values: seq<Double>, unitSI: Double)

  /** One axis of the position record, with the same axis of the positionOffset record. */
  datatype PositionComponent = PositionComponent(
    axis: string, position: seq<Double>, unitSI: Double, offset: seq<Double>, offsetUnitSI: Double)

  /** A constant record (mass, charge): its `value` and `unitSI` attributes. */
  datatype Constant = Constant(value: Double, unitSI: Double)

  /**
   * A particle species: the names of its records in iteration order, and the records
   * the converter reads. `mass` and `charge` are read only when named in `records`.
   */
  datatype Species = Species(
    records: seq<string>,
    momentum: seq<Component>,
    position: seq<PositionComponent>,
    mass: Constant,
    charge: Constant,
    weighting: Option<seq<Double>>,
    particleShape: Double)

  /** The first mesh's grid: its unit and spacing per dimension. */
  datatype Mesh = Mesh(gridUnitSI: Double, gridSpacing: seq<Double>)

  datatype Iteration = Iteration(time: Double, particles: seq<(string, Species)>, meshes: seq<Mesh>)

  // ---------------------------------------------------------------- helpers

  method CheckItemExist(records: seq<string>, name: string) returns (itemExists: bool)
    ensures itemExists <==> name in records
  {
    itemExists := false;
    for i := 0 to |records|
      invariant itemExists <==> name in records[..i]
    {
      assert records[..i + 1] == records[..i] + [records[i]];
      if records[i] == name {
        itemExists := true;
      }
    }
    assert records[..|records|] == records;
  }

  /** The number of particles, taken from the last position axis; 0 without any. */
  function CoordinatesSize(position: seq<PositionComponent>): nat {
    if position == [] then 0 else |position[|position| - 1].position|
  }

  method GetCoordinatesSize(position: seq<PositionComponent>) returns (size: nat)
    ensures size == CoordinatesSize(position)
    ensures position != [] ==> size == |position[|position| - 1].position|
    ensures position == [] ==> size == 0
  {
    size := 0;
    for i := 0 to |position|
      invariant i == 0 ==> size == 0
      invariant i > 0 ==> size == |position[i - 1].position|
    {
      size := |position[i].position|;
    }
  }

  /** The cell sizes: [1.0] without meshes, else the first mesh's spacing in SI units. */
  function FieldSizes(ops: FloatOps, meshes: seq<Mesh>): (r: seq<Double>)
    ensures meshes == [] ==> r == [ONE]
    ensures meshes != [] ==> |r| == |meshes[0].gridSpacing|
    ensures meshes != [] ==>
      forall i :: 0 <= i < |r| ==> r[i] == ops.mul(meshes[0].gridUnitSI, meshes[0].gridSpacing[i])
  {
    if meshes == [] then [ONE]
    else Map((d: Double) => ops.mul(meshes[0].gridUnitSI, d), meshes[0].gridSpacing)
  }

  method GetFieldSizes(ops: FloatOps, meshes: seq<Mesh>) returns (spacing: seq<Double>)
    ensures spacing == FieldSizes(ops, meshes)
  {
    spacing := [];
    if |meshes| == 0 {
      spacing := spacing + [ONE];
      return;
    }
    var first := meshes[0];
    for i := 0 to |first.gridSpacing|
      invariant |spacing| == i
      invariant forall j :: 0 <= j < i ==> spacing[j] == ops.mul(first.gridUnitSI, first.gridSpacing[j])
    {
      spacing := spacing + [ops.mul(first.gridUnitSI, first.gridSpacing[i])];
    }
  }

  /** Python's `min(s)`: the first element, replaced by each later one that compares less. */
  function PyMin(less: (Double, Double) -> bool, s: seq<Double>): Option<Double> {
    if s == [] then None else Some(MinFrom(less, s[0], s[1..]))
  }

  function MinFrom(less: (Double, Double) -> bool, current: Double, rest: seq<Double>): Double
    decreases |rest|
  {
    if rest == [] then current
    else MinFrom(less, if less(rest[0], current) then rest[0] else current, rest[1..])
  }

  /** `<` on floats is irreflexive and transitive, NaN included. */
  predicate StrictOrder(less: (Double, Double) -> bool) {
    (forall a :: !less(a, a)) && (forall a, b, c :: less(a, b) && less(b, c) ==> less(a, c))
  }

  lemma {:induction false} MinFromIsLeast(less: (Double, Double) -> bool, current: Double, rest: seq<Double>)
    requires StrictOrder(less)
    ensures MinFrom(less, current, rest) == current || MinFrom(less, current, rest) in rest
    ensures MinFrom(less, current, rest) == current || less(MinFrom(less, current, rest), current)
    ensures !less(current, MinFrom(less, current, rest))
    ensures forall y :: y in rest ==> !less(y, MinFrom(less, current, rest))
    decreases |rest|
  {
    if rest != [] {
      var next := if less(rest[0], current) then rest[0] else current;
      MinFromIsLeast(less, next, rest[1..]);
      assert forall y :: y in rest ==> y == rest[0] || y in rest[1..];
    }
  }

  /**
   * For a strict order, `min` of a non-empty sequence is one of its elements and no
   * element is less than it; it raises only on the empty sequence.
   */
  lemma PyMinIsLeast(less: (Double, Double) -> bool, s: seq<Double>)
    requires StrictOrder(less)
    ensures PyMin(less, s).Some? <==> s != []
    ensures PyMin(less, s).Some? ==> PyMin(less, s).value in s && forall y :: y in s ==> !less(y, PyMin(less, s).value)
  {
    if s != [] {
      MinFromIsLeast(less, s[0], s[1..]);
      assert forall y :: y in s ==> y == s[0] || y in s[1..];
    }
  }

  /** The least of the scaled spacings is one of them, and no scaled spacing is less than it. */
  lemma ScaledMinIsLeast(ops: FloatOps, spacing: seq<Double>, particleShape: Double)
    ensures StrictOrder(ops.less) && spacing != [] ==>
      exists i :: 0 <= i < |spacing|
        && PyMin(ops.less, Map((d: Double) => ops.mul(d, particleShape), spacing)) == Some(ops.mul(spacing[i], particleShape))
        && forall j :: 0 <= j < |spacing| ==> !ops.less(ops.mul(spacing[j], particleShape), ops.mul(spacing[i], particleShape))
  {
    if StrictOrder(ops.less) && spacing != [] {
      var scaled := Map((d: Double) => ops.mul(d, particleShape), spacing);
      PyMinIsLeast(ops.less, scaled);
      var i :| 0 <= i < |scaled| && scaled[i] == PyMin(ops.less, scaled).value;
      forall j | 0 <= j < |spacing|
        ensures !ops.less(ops.mul(spacing[j], particleShape), ops.mul(spacing[i], particleShape))
      {
        assert scaled[j] in scaled;
      }
    }
  }

  /** `compute_r_macro`: half the least cell size scaled by the particle shape; None where `min` raises. */
  function RMacro(ops: FloatOps, spacing: seq<Double>, particleShape: Double): (r: Option<Double>)
    ensures r.Some? <==> spacing != []
    ensures StrictOrder(ops.less) && r.Some? ==>
      exists i :: 0 <= i < |spacing| && r.value == ops.half(ops.mul(spacing[i], particleShape))
        && forall j :: 0 <= j < |spacing| ==> !ops.less(ops.mul(spacing[j], particleShape), ops.mul(spacing[i], particleShape))
  {
    ScaledMinIsLeast(ops, spacing, particleShape);
    match PyMin(ops.less, Map((d: Double) => ops.mul(d, particleShape), spacing))
    case None => None
    case Some(least) => Some(ops.half(least))
  }

  // ---------------------------------------------------------------- value transforms

  /** `Getting_absolute_momentum`: the stored value times the unit. */
  function AbsoluteMomentum(ops: FloatOps, unitSI: Double): Double -> Double {
    (v: Double) => ops.mul(v, unitSI)
  }

  /** `Getting_absolute_coordinates`: position times its unit plus offset times its unit. */
  function AbsoluteCoordinate(ops: FloatOps, unitSI: Double, offsetUnitSI: Double): ((Double, Double)) -> Double {
    (v: (Double, Double)) => ops.add(ops.mul(v.0, unitSI), ops.mul(v.1, offsetUnitSI))
  }

  // ---------------------------------------------------------------- blocks

  /** `write_block_header`: the header of the array named by `vector + axis` in the table. */
  method WriteBlockHeader(f: GdfFile, vector: string, axis: string, size: nat) returns (st: Status)
    modifies f
    ensures f.bytes == old(f.bytes) + ArrayHeader(GdfName(vector + axis), size).out
    ensures st == ArrayHeader(GdfName(vector + axis), size).status
  {
    st := WriteArrayHeader(f, GdfName(vector + axis), size);
  }

  function MomentumBlock(ops: FloatOps, m: nat): Component -> Emission {
    (c: Component) =>
      ArrayBlock(GdfName("momentum/" + c.axis), |c.values|, SliceReader(c.values), AbsoluteMomentum(ops, c.unitSI), m)
  }

  function CoordinateBlock(ops: FloatOps, m: nat): PositionComponent -> Emission {
    (c: PositionComponent) =>
      ArrayBlock(GdfName("position/" + c.axis), |c.position|, CoordinateReader(c.position, c.offset),
                 AbsoluteCoordinate(ops, c.unitSI, c.offsetUnitSI), m)
  }

  /** One pass of `iterate_momentum`: the block header, then the scaled values. */
  method WriteMomentumComponent(f: GdfFile, ops: FloatOps, c: Component, m: nat) returns (st: Status)
    modifies f
    ensures f.bytes == old(f.bytes) + MomentumBlock(ops, m)(c).out && st == MomentumBlock(ops, m)(c).status
  {
    ghost var start := f.bytes;
    var name, size := GdfName("momentum/" + c.axis), |c.values|;
    st := WriteBlockHeader(f, "momentum/", c.axis, size);
    if st.Raised? { return; }
    Appended(start, ArrayHeader(name, size), StreamValues(SliceReader(c.values), AbsoluteMomentum(ops, c.unitSI), size, m));
    st := WriteDatasetValues(f, SliceReader(c.values), AbsoluteMomentum(ops, c.unitSI), size, m);
  }

  /** One pass of `iterate_coords`: the block header, then position and offset combined. */
  method WriteCoordinateComponent(f: GdfFile, ops: FloatOps, c: PositionComponent, m: nat) returns (st: Status)
    modifies f
    ensures f.bytes == old(f.bytes) + CoordinateBlock(ops, m)(c).out && st == CoordinateBlock(ops, m)(c).status
  {
    ghost var start := f.bytes;
    var name, size := GdfName("position/" + c.axis), |c.position|;
    var read, T := CoordinateReader(c.position, c.offset), AbsoluteCoordinate(ops, c.unitSI, c.offsetUnitSI);
    st := WriteBlockHeader(f, "position/", c.axis, size);
    if st.Raised? { return; }
    Appended(start, ArrayHeader(name, size), StreamValues(read, T, size, m));
    st := WriteDatasetValues(f, read, T, size, m);
  }

  method IterateMomentum(f: GdfFile, ops: FloatOps, cs: seq<Component>, m: nat) returns (st: Status)
    modifies f
    ensures f.bytes == old(f.bytes) + Blocks(MomentumBlock(ops, m), cs).out
    ensures st == Blocks(MomentumBlock(ops, m), cs).status
  {
    ghost var start := f.bytes;
    st := Ok;
    for i := 0 to |cs|
      invariant f.bytes == start + Blocks(MomentumBlock(ops, m), cs[..i]).out
      invariant Blocks(MomentumBlock(ops, m), cs[..i]).status == Ok && st == Ok
    {
      BlocksSnoc(MomentumBlock(ops, m), cs, i);
      Appended(start, Blocks(MomentumBlock(ops, m), cs[..i]), MomentumBlock(ops, m)(cs[i]));
      st := WriteMomentumComponent(f, ops, cs[i], m);
      if st.Raised? {
        BlocksStopAtRaise(MomentumBlock(ops, m), cs, i + 1);
        return;
      }
    }
    assert cs[..|cs|] == cs;
  }

  method IterateCoords(f: GdfFile, ops: FloatOps, cs: seq<PositionComponent>, m: nat) returns (st: Status)
    modifies f
    ensures f.bytes == old(f.bytes) + Blocks(CoordinateBlock(ops, m), cs).out
    ensures st == Blocks(CoordinateBlock(ops, m), cs).status
  {
    ghost var start := f.bytes;
    st := Ok;
    for i := 0 to |cs|
      invariant f.bytes == start + Blocks(CoordinateBlock(ops, m), cs[..i]).out
      invariant Blocks(CoordinateBlock(ops, m), cs[..i]).status == Ok && st == Ok
    {
      BlocksSnoc(CoordinateBlock(ops, m), cs, i);
      Appended(start, Blocks(CoordinateBlock(ops, m), cs[..i]), CoordinateBlock(ops, m)(cs[i]));
      st := WriteCoordinateComponent(f, ops, cs[i], m);
      if st.Raised? {
        BlocksStopAtRaise(CoordinateBlock(ops, m), cs, i + 1);
        return;
      }
    }
    assert cs[..|cs|] == cs;
  }

  /**
   * A position axis with at least as many offsets: the block is the header of the
   * table's name, then position * unitSI + offset * unitSI for every particle, in order.
   */
  lemma CoordinateBlockLayout(ops: FloatOps, c: PositionComponent, m: nat, name: string)
    requires GdfName("position/" + c.axis) == Some(name)
    requires |c.position| <= |c.offset| && FitsInt32(8 * |c.position|) && m > 0
    ensures CoordinateBlock(ops, m)(c)
      == Done(NameField(name).out + PackInt32(ARRAY_DOUBLE_TAG) + PackInt32(8 * |c.position|)
              + EncodeDoubles(Map(AbsoluteCoordinate(ops, c.unitSI, c.offsetUnitSI), Zip(c.position, c.offset))))
  {
    TableNamesFit("position/" + c.axis);
    CoordinateReaderReadsFrom(c.position, c.offset);
    ArrayBlockLayout(name, CoordinateReader(c.position, c.offset), AbsoluteCoordinate(ops, c.unitSI, c.offsetUnitSI),
                     Zip(c.position, c.offset), m);
  }

  /** A position axis with fewer offsets raises ItemCount after the header and the whole chunks before the offsets run out. */
  lemma CoordinateBlockShortOffset(ops: FloatOps, c: PositionComponent, m: nat, name: string)
    requires GdfName("position/" + c.axis) == Some(name)
    requires |c.offset| < |c.position| && FitsInt32(8 * |c.position|) && m > 0
    ensures CoordinateBlock(ops, m)(c)
      == Emission(NameField(name).out + PackInt32(ARRAY_DOUBLE_TAG) + PackInt32(8 * |c.position|)
                  + EncodeDoubles(Map(AbsoluteCoordinate(ops, c.unitSI, c.offsetUnitSI),
                                      Zip(c.position, c.offset)[..WholeChunks(|c.offset|, m)])),
                  Raised(ItemCount))
  {
    TableNamesFit("position/" + c.axis);
    ArrayHeaderLayout(name, |c.position|);
    ShortOffsetRaises(c.position, c.offset, AbsoluteCoordinate(ops, c.unitSI, c.offsetUnitSI), m);
  }

  /** `write_double_dataset_values`: `size` copies of one value under the given name. */
  function BroadcastBlock(name: Option<string>, size: nat, value: Double, m: nat): Emission {
    ArrayBlock(name, size, ConstReader(value), Identity, m)
  }

  method WriteDoubleDatasetValues(f: GdfFile, name: Option<string>, size: nat, value: Double, m: nat) returns (st: Status)
    modifies f
    ensures f.bytes == old(f.bytes) + BroadcastBlock(name, size, value, m).out
    ensures st == BroadcastBlock(name, size, value, m).status
  {
    ghost var start := f.bytes;
    st := WriteArrayHeader(f, name, size);
    if st.Raised? { return; }
    Appended(start, ArrayHeader(name, size), StreamValues(ConstReader(value), Identity, size, m));
    st := WriteDatasetValues(f, ConstReader(value), Identity, size, m);
  }

  /** `write_scalar_dataset`: nothing unless the species has the record, else its value broadcast. */
  function ScalarBlock(ops: FloatOps, records: seq<string>, name: string, c: Constant, size: nat, m: nat): Emission {
    if name !in records then Done([])
    else BroadcastBlock(GdfName(name), size, ops.mul(c.value, c.unitSI), m)
  }

  method WriteScalarDataset(f: GdfFile, ops: FloatOps, records: seq<string>, name: string, c: Constant, size: nat, m: nat)
    returns (st: Status)
    modifies f
    ensures f.bytes == old(f.bytes) + ScalarBlock(ops, records, name, c, size, m).out
    ensures st == ScalarBlock(ops, records, name, c, size, m).status
  {
    var itemExists := CheckItemExist(records, name);
    if !itemExists {
      return Ok;
    }
    st := WriteDoubleDatasetValues(f, GdfName(name), size, ops.mul(c.value, c.unitSI), m);
  }

  /** `write_weight`: the `nmacro` header, then the weights unchanged; a missing record raises after the header. */
  function WeightBlock(weighting: Option<seq<Double>>, m: nat): Emission {
    match weighting
    case None => Then(DatasetHeader(NMACRO), Fail(MissingRecord))
    case Some(w) => ArrayBlock(Some(NMACRO), |w|, SliceReader(w), Identity, m)
  }

  method WriteWeight(f: GdfFile, weighting: Option<seq<Double>>, m: nat) returns (st: Status)
    modifies f
    ensures f.bytes == old(f.bytes) + WeightBlock(weighting, m).out && st == WeightBlock(weighting, m).status
  {
    ghost var start := f.bytes;
    if weighting.None? {
      st := WriteDatasetHeader(f, NMACRO);
      if st.Raised? { return; }
      return Raised(MissingRecord);
    }
    var w := weighting.value;
    st := WriteArrayHeader(f, Some(NMACRO), |w|);
    if st.Raised? { return; }
    Appended(start, ArrayHeader(Some(NMACRO), |w|), StreamValues(SliceReader(w), Identity, |w|, m));
    st := WriteDatasetValues(f, SliceReader(w), Identity, |w|, m);
  }

  lemma NMacroIsAscii()
    ensures AllAscii(NMACRO) && |NMACRO| <= GDFNAMELEN
  {
  }

  /** The weights are written unchanged, all of them, in order, whatever the chunk size. */
  lemma WeightBlockLayout(w: seq<Double>, m: nat)
    requires FitsInt32(8 * |w|) && m > 0
    ensures WeightBlock(Some(w), m)
      == Done(NameField(NMACRO).out + PackInt32(ARRAY_DOUBLE_TAG) + PackInt32(8 * |w|) + EncodeDoubles(w))
  {
    assert WeightBlock(Some(w), m) == ArrayBlock(Some(NMACRO), |w|, SliceReader(w), Identity, m);
    SliceReaderReadsFrom(w);
    NMacroIsAscii();
    ArrayBlockLayout(NMACRO, SliceReader(w), Identity, w, m);
    MapIdentity(w);
  }

  /** The `rmacro` broadcast; `min` of no cell sizes raises before it is written. */
  function RMacroBlock(ops: FloatOps, spacing: seq<Double>, particleShape: Double, size: nat, m: nat): Emission {
    match RMacro(ops, spacing, particleShape)
    case None => Fail(BadValue)
    case Some(r) => BroadcastBlock(Some(RMACRO), size, r, m)
  }

  /** `write_particles_type`: momentum, position, mass, charge, weights, then the radius. */
  function ParticlesType(ops: FloatOps, sp: Species, spacing: seq<Double>, m: nat): Emission {
    var size := CoordinatesSize(sp.position);
    Then(Then(Then(Then(Then(
      Blocks(MomentumBlock(ops, m), sp.momentum),
      Blocks(CoordinateBlock(ops, m), sp.position)),
      ScalarBlock(ops, sp.records, "mass", sp.mass, size, m)),
      ScalarBlock(ops, sp.records, "charge", sp.charge, size, m)),
      WeightBlock(sp.weighting, m)),
      RMacroBlock(ops, spacing, sp.particleShape, size, m))
  }

  method WriteParticlesType(f: GdfFile, ops: FloatOps, sp: Species, spacing: seq<Double>, m: nat) returns (st: Status)
    modifies f
    ensures f.bytes == old(f.bytes) + ParticlesType(ops, sp, spacing, m).out
    ensures st == ParticlesType(ops, sp, spacing, m).status
  {
    ghost var start := f.bytes;
    ghost var done := Blocks(MomentumBlock(ops, m), sp.momentum);
    st := IterateMomentum(f, ops, sp.momentum, m);
    if st.Raised? { return; }
    Appended(start, done, Blocks(CoordinateBlock(ops, m), sp.position));
    done := Then(done, Blocks(CoordinateBlock(ops, m), sp.position));
    st := IterateCoords(f, ops, sp.position, m);
    if st.Raised? { return; }
    var size := GetCoordinatesSize(sp.position);
    Appended(start, done, ScalarBlock(ops, sp.records, "mass", sp.mass, size, m));
    done := Then(done, ScalarBlock(ops, sp.records, "mass", sp.mass, size, m));
    st := WriteScalarDataset(f, ops, sp.records, "mass", sp.mass, size, m);
    if st.Raised? { return; }
    Appended(start, done, ScalarBlock(ops, sp.records, "charge", sp.charge, size, m));
    done := Then(done, ScalarBlock(ops, sp.records, "charge", sp.charge, size, m));
    st := WriteScalarDataset(f, ops, sp.records, "charge", sp.charge, size, m);
    if st.Raised? { return; }
    Appended(start, done, WeightBlock(sp.weighting, m));
    done := Then(done, WeightBlock(sp.weighting, m));
    st := WriteWeight(f, sp.weighting, m);
    if st.Raised? { return; }
    Appended(start, done, RMacroBlock(ops, spacing, sp.particleShape, size, m));
    var rMacro := RMacro(ops, spacing, sp.particleShape);
    if rMacro.None? {
      return Raised(BadValue);
    }
    st := WriteDoubleDatasetValues(f, Some(RMACRO), size, rMacro.value, m);
  }

  // ---------------------------------------------------------------- species selection

  /** A species is converted only when it has both a momentum and a position record. */
  predicate Eligible(sp: Species) {
    "momentum" in sp.records && "position" in sp.records
  }

  /** The species filter of `write_data`: '' selects every species, any other name that one. */
  function SpeciesFilter(species: string): Option<string> {
    if species == "" then None else Some(species)
  }

  /** Whether `all_species` (no filter) or `one_type_species` (a name) writes a species. */
  function Keep(filter: Option<string>): ((string, Species)) -> bool {
    (g: (string, Species)) => (filter.None? || g.0 == filter.value) && Eligible(g.1)
  }

  /** The `var` block naming a species, then its arrays. */
  function SpeciesBlock(ops: FloatOps, spacing: seq<Double>, m: nat): ((string, Species)) -> Emission {
    (g: (string, Species)) => Then(AsciiBlock(VAR, |g.0|, g.0), ParticlesType(ops, g.1, spacing, m))
  }

  /** One pass of the species loop: a species that is not kept writes nothing. */
  function SpeciesStep(ops: FloatOps, spacing: seq<Double>, m: nat, filter: Option<string>): ((string, Species)) -> Emission {
    Guarded(Keep(filter), SpeciesBlock(ops, spacing, m))
  }

  /** The species that are written, in iteration order. */
  function Selected(groups: seq<(string, Species)>, filter: Option<string>): seq<(string, Species)> {
    Filter(Keep(filter), groups)
  }

  /** Exactly the eligible species, and with a filter exactly the eligible ones of that name, are selected. */
  lemma SelectedMembers(groups: seq<(string, Species)>, filter: Option<string>, g: (string, Species))
    ensures g in Selected(groups, filter) <==> g in groups && Eligible(g.1) && (filter.None? || g.0 == filter.value)
  {
    FilterMembers(Keep(filter), groups, g);
  }

  /** With distinct species names (the keys of a dictionary), a filter selects at most one species. */
  lemma {:induction false} FilterSelectsAtMostOne(groups: seq<(string, Species)>, name: string)
    requires forall i, j :: 0 <= i < j < |groups| ==> groups[i].0 != groups[j].0
    ensures |Selected(groups, Some(name))| <= 1
    ensures |Selected(groups, Some(name))| == 1 ==> Selected(groups, Some(name))[0].0 == name
  {
    if groups != [] {
      var init, last := groups[..|groups| - 1], groups[|groups| - 1];
      FilterSelectsAtMostOne(init, name);
      if Keep(Some(name))(last) && |Selected(init, Some(name))| == 1 {
        SelectedMembers(init, Some(name), Selected(init, Some(name))[0]);
        assert false;
      }
    }
  }

  /** The species loop writes the selected species, each as its `var` block and arrays, in order. */
  lemma SpeciesLoopWritesSelected(ops: FloatOps, spacing: seq<Double>, m: nat, filter: Option<string>, groups: seq<(string, Species)>)
    ensures Blocks(SpeciesStep(ops, spacing, m, filter), groups) == Blocks(SpeciesBlock(ops, spacing, m), Selected(groups, filter))
  {
    GuardedBlocks(Keep(filter), SpeciesBlock(ops, spacing, m), groups);
  }

  method WriteSpecies(f: GdfFile, ops: FloatOps, g: (string, Species), spacing: seq<Double>, m: nat) returns (st: Status)
    modifies f
    ensures f.bytes == old(f.bytes) + SpeciesBlock(ops, spacing, m)(g).out
    ensures st == SpeciesBlock(ops, spacing, m)(g).status
  {
    ghost var start := f.bytes;
    st := WriteAsciiName(f, VAR, |g.0|, g.0);
    if st.Raised? { return; }
    Appended(start, AsciiBlock(VAR, |g.0|, g.0), ParticlesType(ops, g.1, spacing, m));
    st := WriteParticlesType(f, ops, g.1, spacing, m);
  }

  /** `all_species`: every eligible species, in iteration order. */
  method AllSpecies(f: GdfFile, ops: FloatOps, it: Iteration, m: nat) returns (st: Status)
    modifies f
    ensures f.bytes == old(f.bytes) + Blocks(SpeciesStep(ops, FieldSizes(ops, it.meshes), m, None), it.particles).out
    ensures st == Blocks(SpeciesStep(ops, FieldSizes(ops, it.meshes), m, None), it.particles).status
  {
    var spacing := GetFieldSizes(ops, it.meshes);
    var groups := it.particles;
    ghost var step := SpeciesStep(ops, spacing, m, None);
    ghost var start := f.bytes;
    st := Ok;
    for i := 0 to |groups|
      invariant f.bytes == start + Blocks(step, groups[..i]).out
      invariant Blocks(step, groups[..i]).status == Ok && st == Ok
    {
      BlocksSnoc(step, groups, i);
      Appended(start, Blocks(step, groups[..i]), step(groups[i]));
      var hasMomentum := CheckItemExist(groups[i].1.records, "momentum");
      var hasPosition := CheckItemExist(groups[i].1.records, "position");
      if !(hasMomentum && hasPosition) {
        assert !Keep(None)(groups[i]);
        assert SpeciesStep(ops, spacing, m, None)(groups[i]) == Done([]);
        assert step(groups[i]) == Done([]);
        assert f.bytes == (start + Blocks(step, groups[..i]).out) + [];
        continue;
      }
      st := WriteSpecies(f, ops, groups[i], spacing, m);
      if st.Raised? {
        BlocksStopAtRaise(step, groups, i + 1);
        return;
      }
    }
    assert groups[..|groups|] == groups;
  }

  /** `one_type_species`: the eligible species named by the filter; the cell sizes are taken when it is met. */
  method OneTypeSpecies(f: GdfFile, ops: FloatOps, it: Iteration, species: string, m: nat) returns (st: Status)
    modifies f
    ensures f.bytes == old(f.bytes) + Blocks(SpeciesStep(ops, FieldSizes(ops, it.meshes), m, Some(species)), it.particles).out
    ensures st == Blocks(SpeciesStep(ops, FieldSizes(ops, it.meshes), m, Some(species)), it.particles).status
  {
    var groups := it.particles;
    ghost var step := SpeciesStep(ops, FieldSizes(ops, it.meshes), m, Some(species));
    ghost var start := f.bytes;
    st := Ok;
    for i := 0 to |groups|
      invariant f.bytes == start + Blocks(step, groups[..i]).out
      invariant Blocks(step, groups[..i]).status == Ok && st == Ok
    {
      BlocksSnoc(step, groups, i);
      Appended(start, Blocks(step, groups[..i]), step(groups[i]));
      if groups[i].0 == species {
        var hasMomentum := CheckItemExist(groups[i].1.records, "momentum");
        var hasPosition := CheckItemExist(groups[i].1.records, "position");
        if !(hasMomentum && hasPosition) {
          assert !Keep(Some(species))(groups[i]);
          assert SpeciesStep(ops, FieldSizes(ops, it.meshes), m, Some(species))(groups[i]) == Done([]);
          assert step(groups[i]) == Done([]);
          assert f.bytes == (start + Blocks(step, groups[..i]).out) + [];
          continue;
        }
        var spacing := GetFieldSizes(ops, it.meshes);
        st := WriteSpecies(f, ops, groups[i], spacing, m);
        if st.Raised? {
          BlocksStopAtRaise(step, groups, i + 1);
          return;
        }
      } else {
        assert !Keep(Some(species))(groups[i]);
        assert SpeciesStep(ops, FieldSizes(ops, it.meshes), m, Some(species))(groups[i]) == Done([]);
        assert step(groups[i]) == Done([]);
        assert f.bytes == (start + Blocks(step, groups[..i]).out) + [];
      }
    }
    assert groups[..|groups|] == groups;
  }

  /** `write_data`: the `time` scalar, then the selected species. */
  function IterationBlocks(ops: FloatOps, species: string, m: nat): Iteration -> Emission {
    (it: Iteration) =>
      Then(FloatBlock(TIME, it.time), Blocks(SpeciesStep(ops, FieldSizes(ops, it.meshes), m, SpeciesFilter(species)), it.particles))
  }

  method WriteData(f: GdfFile, ops: FloatOps, it: Iteration, species: string, m: nat) returns (st: Status)
    modifies f
    ensures f.bytes == old(f.bytes) + IterationBlocks(ops, species, m)(it).out
    ensures st == IterationBlocks(ops, species, m)(it).status
  {
    ghost var start := f.bytes;
    st := WriteFloat(f, TIME, it.time);
    if st.Raised? { return; }
    Appended(start, FloatBlock(TIME, it.time), Blocks(SpeciesStep(ops, FieldSizes(ops, it.meshes), m, SpeciesFilter(species)), it.particles));
    if species == "" {
      assert SpeciesFilter(species) == None;
      st := AllSpecies(f, ops, it, m);
    } else {
      assert SpeciesFilter(species) == Some(species);
      st := OneTypeSpecies(f, ops, it, species, m);
    }
  }

  method WriteFile(f: GdfFile, ops: FloatOps, iterations: seq<Iteration>, species: string, m: nat) returns (st: Status)
    modifies f
    ensures f.bytes == old(f.bytes) + Blocks(IterationBlocks(ops, species, m), iterations).out
    ensures st == Blocks(IterationBlocks(ops, species, m), iterations).status
  {
    ghost var start := f.bytes;
    st := Ok;
    for i := 0 to |iterations|
      invariant f.bytes == start + Blocks(IterationBlocks(ops, species, m), iterations[..i]).out
      invariant Blocks(IterationBlocks(ops, species, m), iterations[..i]).status == Ok && st == Ok
    {
      BlocksSnoc(IterationBlocks(ops, species, m), iterations, i);
      Appended(start, Blocks(IterationBlocks(ops, species, m), iterations[..i]), IterationBlocks(ops, species, m)(iterations[i]));
      st := WriteData(f, ops, iterations[i], species, m);
      if st.Raised? {
        BlocksStopAtRaise(IterationBlocks(ops, species, m), iterations, i + 1);
        return;
      }
    }
    assert iterations[..|iterations|] == iterations;
  }

  // ---------------------------------------------------------------- root record

  /** `add_required_version_root_attribute`: the versions (1, 1), (3, 0) and (0, 0). */
  function RequiredVersions(): Emission {
    Then(Then(VersionField(1, 1), VersionField(3, 0)), VersionField(0, 0))
  }

  method AddRequiredVersions(f: GdfFile) returns (st: Status)
    modifies f
    ensures f.bytes == old(f.bytes) + RequiredVersions().out && st == RequiredVersions().status
  {
    ghost var start := f.bytes;
    assert VersionField(1, 1).status == Ok && VersionField(3, 0).status == Ok;
    st := WriteVersion(f, 1, 1);
    Appended(start, VersionField(1, 1), VersionField(3, 0));
    st := WriteVersion(f, 3, 0);
    Appended(start, Then(VersionField(1, 1), VersionField(3, 0)), VersionField(0, 0));
    st := WriteVersion(f, 0, 0);
  }

  /** The six version bytes. */
  lemma RequiredVersionsBytes()
    ensures RequiredVersions() == Done([1, 1, 3, 0, 0, 0])
  {
    assert VersionField(1, 1).out == [1, 1];
    assert VersionField(3, 0).out == [3, 0];
    assert VersionField(0, 0).out == [0, 0];
  }

  /** `add_dest_name_root_attribute`: always the name 'empty'. */
  method AddDestName(f: GdfFile) returns (st: Status)
    modifies f
    ensures f.bytes == old(f.bytes) + NameField(EMPTY).out && st == NameField(EMPTY).status
  {
    st := WriteString(f, EMPTY);
  }

  /** The root record: id, creation time, creator, destination, versions and the empty first block. */
  function RootRecord(t: Timestamp, software: string): Emission {
    Then(Then(Then(Then(Then(
      GdfIdField(), TimeField(t)), NameField(software)), NameField(EMPTY)), RequiredVersions()), FirstBlock())
  }

  /** `hdf_file_to_gdf_file`: the root record, then every iteration. */
  function Conversion(ops: FloatOps, t: Timestamp, software: string, iterations: seq<Iteration>, species: string, m: nat): Emission {
    Then(RootRecord(t, software), Blocks(IterationBlocks(ops, species, m), iterations))
  }

  method HdfFileToGdfFile(f: GdfFile, ops: FloatOps, t: Timestamp, software: string, iterations: seq<Iteration>, species: string, m: nat)
    returns (st: Status)
    modifies f
    ensures f.bytes == old(f.bytes) + Conversion(ops, t, software, iterations, species, m).out
    ensures st == Conversion(ops, t, software, iterations, species, m).status
  {
    GdfIdBytes();
    NameFieldOfAscii(EMPTY);
    RequiredVersionsBytes();
    FirstBlockBytes();
    ghost var start := f.bytes;
    ghost var done := GdfIdField();
    st := AddGdfId(f);
    Appended(start, done, TimeField(t));
    done := Then(done, TimeField(t));
    st := AddTime(f, t);
    if st.Raised? { return; }
    Appended(start, done, NameField(software));
    done := Then(done, NameField(software));
    st := WriteString(f, software);
    if st.Raised? { return; }
    Appended(start, done, NameField(EMPTY));
    done := Then(done, NameField(EMPTY));
    st := AddDestName(f);
    Appended(start, done, RequiredVersions());
    done := Then(done, RequiredVersions());
    st := AddRequiredVersions(f);
    Appended(start, done, FirstBlock());
    done := Then(done, FirstBlock());
    st := WriteFirstBlock(f);
    Appended(start, done, Blocks(IterationBlocks(ops, species, m), iterations));
    st := WriteFile(f, ops, iterations, species, m);
  }

  /**
   * For a creation time that fits int32 and an ASCII creator name of at most sixteen
   * characters, the root record is 48 bytes: the magic number, the time, the two name
   * fields, the version bytes 1 1 3 0 0 0 and the characters '0' '0'.
   */
  lemma RootRecordLayout(seconds: int, software: string)
    requires FitsInt32(seconds) && AllAscii(software) && |software| <= GDFNAMELEN
    ensures RootRecord(Seconds(seconds), software)
      == Done([0x75, 0x4C, 0x9F, 0x05] + PackInt32(seconds) + NameField(software).out + NameField(EMPTY).out
              + [1, 1, 3, 0, 0, 0] + [0x30, 0x30])
    ensures |RootRecord(Seconds(seconds), software).out| == 48
  {
    GdfIdBytes();
    NameFieldOfAscii(software);
    NameFieldOfAscii(EMPTY);
    RequiredVersionsBytes();
    FirstBlockBytes();
  }
}
