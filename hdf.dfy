/**
 * The HDF5-to-GDF converter: a root record built from the file's root attributes,
 * then one double-array block per dataset found under a `particles` group. The HDF5
 * tree is handed to the model as the sequence of nodes its walk visits, and attribute
 * values as the raw bytes stored in the file.
 */
module Hdf {
  import opened Wrappers
  import opened Bytes
  import opened Text
  import opened Sink
  import opened Writer
  import opened Streamer

  const PARTICLES: string := "particles"
  const SLASH: string := "/"
  const DOT: string := "."
  const EMPTY: string := "empty"
  const CHARGE: string := "charge"
  const GDF_EXT: string := ".gdf"
  const H5_EXT: string := ".h5"

  /** `Name_of_arrays.dict_datasets` of this converter: charge and weighting keep their names. */
  const HDF_DICT_DATASETS: map<string, string> := map[
    "momentum/x" := "Bx",
    "momentum/y" := "By",
    "momentum/z" := "Bz",
    "position/x" := "x",
    "position/y" := "y",
    "position/z" := "z",
    "id" := "ID",
    "charge" := "charge",
    "weighting" := "weighting",
    "mass" := "m"]

  function HdfGdfName(key: string): Option<string> {
    if key in HDF_DICT_DATASETS then Some(HDF_DICT_DATASETS[key]) else None
  }

  /** Every GDF name in the table fits a name field and reads back from it. */
  lemma HdfTableNamesFit(key: string)
    requires HdfGdfName(key).Some?
    ensures AllAscii(HdfGdfName(key).value) && NUL !in HdfGdfName(key).value && |HdfGdfName(key).value| <= GDFNAMELEN
    ensures NameOf(NameField(HdfGdfName(key).value).out) == HdfGdfName(key).value
  {
    NameFieldRoundTrip(HdfGdfName(key).value);
  }

  // ---------------------------------------------------------------- the walk

  /** A node of the HDF5 tree: a dataset with its path and values, or a group with its path. */
  datatype Node = Dataset(name: string, values: seq<Double>) | Group(name: string)

  function IsDataset(n: Node): bool {
    n.Dataset?
  }

  predicate AllDatasets(ns: seq<Node>) {
    forall i :: 0 <= i < |ns| ==> ns[i].Dataset?
  }

  /** `Collect_Datasets.list_values_group`. */
  const LIST_VALUES_GROUP: seq<string> := ["charge", "mass"]

  /** `value in name`, as a test on the keyword. */
  function OccursIn(name: string): string -> bool {
    (keyword: string) => Contains(name, keyword)
  }

  /** n copies of a node. */
  function Copies(node: Node, n: nat): (r: seq<Node>)
    ensures |r| == n && forall i :: 0 <= i < n ==> r[i] == node
  {
    if n == 0 then [] else Copies(node, n - 1) + [node]
  }

  /** What one visit appends to `grops_values`: the group once for every keyword in its path. */
  function GroupHits(node: Node): seq<Node> {
    if node.Group? then Copies(node, |Filter(OccursIn(node.name), LIST_VALUES_GROUP)|) else []
  }

  /** What a whole walk appends to `grops_values`. */
  function AllGroupHits(nodes: seq<Node>): seq<Node> {
    if nodes == [] then [] else AllGroupHits(nodes[..|nodes| - 1]) + GroupHits(nodes[|nodes| - 1])
  }

  /** A group is collected once for `charge` and once for `mass` in its path, so possibly twice. */
  lemma GroupHitsCount(node: Node)
    requires node.Group?
    ensures |GroupHits(node)| == (if Contains(node.name, "charge") then 1 else 0) + (if Contains(node.name, "mass") then 1 else 0)
    ensures forall i :: 0 <= i < |GroupHits(node)| ==> GroupHits(node)[i] == node
  {
    var keep := OccursIn(node.name);
    assert LIST_VALUES_GROUP[..1] == ["charge"];
    assert Filter(keep, LIST_VALUES_GROUP[..1]) == if Contains(node.name, "charge") then ["charge"] else [];
  }

  /** The datasets of a walk, in visiting order. */
  function Datasets(nodes: seq<Node>): (r: seq<Node>)
    ensures AllDatasets(r)
  {
    DatasetsAreDatasets(nodes);
    Filter(IsDataset, nodes)
  }

  lemma {:induction false} DatasetsAreDatasets(nodes: seq<Node>)
    ensures AllDatasets(Filter(IsDataset, nodes))
  {
    var r := Filter(IsDataset, nodes);
    forall i | 0 <= i < |r| ensures r[i].Dataset? {
      FilterMembers(IsDataset, nodes, r[i]);
    }
  }

  /** The collector keeps exactly the datasets of the walk. */
  lemma DatasetsMembers(nodes: seq<Node>, x: Node)
    ensures x in Datasets(nodes) <==> x in nodes && x.Dataset?
  {
    FilterMembers(IsDataset, nodes, x);
  }

  /** `Collect_Datasets`: the callback `visititems` calls with every node of the file. */
  class DatasetCollector {
    var sets: seq<Node>
    var groupsValues: seq<Node>

    constructor()
      ensures sets == [] && groupsValues == []
    {
      sets := [];
      groupsValues := [];
    }

    /** `__call__(name, node)`. */
    method Visit(node: Node)
      modifies this
      ensures sets == old(sets) + (if node.Dataset? then [node] else [])
      ensures groupsValues == old(groupsValues) + GroupHits(node)
    {
      if node.Dataset? {
        sets := sets + [node];
      }
      if node.Group? {
        var keep := OccursIn(node.name);
        for i := 0 to |LIST_VALUES_GROUP|
          invariant sets == old(sets)
          invariant groupsValues == old(groupsValues) + Copies(node, |Filter(keep, LIST_VALUES_GROUP[..i])|)
        {
          assert LIST_VALUES_GROUP[..i + 1][..i] == LIST_VALUES_GROUP[..i];
          if Contains(node.name, LIST_VALUES_GROUP[i]) {
            groupsValues := groupsValues + [node];
          }
        }
        assert LIST_VALUES_GROUP[..|LIST_VALUES_GROUP|] == LIST_VALUES_GROUP;
      }
    }
  }

  /** `hdf_file.visititems(collector)`: the collector called on every node, in the walk's order. */
  method VisitItems(c: DatasetCollector, nodes: seq<Node>)
    modifies c
    ensures c.sets == old(c.sets) + Filter(IsDataset, nodes)
    ensures c.groupsValues == old(c.groupsValues) + AllGroupHits(nodes)
  {
    for i := 0 to |nodes|
      invariant c.sets == old(c.sets) + Filter(IsDataset, nodes[..i])
      invariant c.groupsValues == old(c.groupsValues) + AllGroupHits(nodes[..i])
    {
      assert nodes[..i + 1][..i] == nodes[..i];
      c.Visit(nodes[i]);
    }
    assert nodes[..|nodes|] == nodes;
  }

  // ---------------------------------------------------------------- dataset names

  /**
   * The dictionary key of a dataset: its path after `particles` and one more character,
   * from after the first '/' on; nothing for a path without `particles`.
   */
  function DatasetName(path: string): Option<string> {
    var idx := Find(path, PARTICLES);
    if idx == -1 then None
    else
      var substring := PySlice(path, idx + 10, |path|);
      Some(PySlice(substring, Find(substring, SLASH) + 1, |substring|))
  }

  /** A path `<prefix>particles/<species>/<dataset>` is keyed by the dataset's own name. */
  lemma DatasetNameOfPath(prefix: string, species: string, dataset: string)
    requires forall i :: 0 <= i < |prefix| ==> !MatchAt(prefix + PARTICLES + SLASH + species + SLASH + dataset, PARTICLES, i)
    requires '/' !in species
    ensures DatasetName(prefix + PARTICLES + SLASH + species + SLASH + dataset) == Some(dataset)
  {
    var path := prefix + PARTICLES + SLASH + species + SLASH + dataset;
    var k := |prefix|;
    assert path[k..k + 9] == PARTICLES;
    FindFirst(path, PARTICLES, k);
    var substring := path[k + 10..];
    assert PySlice(path, k + 10, |path|) == substring;
    assert substring == species + SLASH + dataset;
    SlashAfterSpecies(species, dataset);
    assert PySlice(substring, |species| + 1, |substring|) == substring[|species| + 1..];
    assert substring[|species| + 1..] == dataset;
  }

  lemma SlashAfterSpecies(species: string, dataset: string)
    requires '/' !in species
    ensures Find(species + SLASH + dataset, SLASH) == |species|
  {
    var substring := species + SLASH + dataset;
    assert substring[|species|..|species| + 1] == SLASH;
    forall i | 0 <= i < |species| ensures !MatchAt(substring, SLASH, i) {
      assert substring[i..i + 1] == [species[i]];
    }
    FindFirst(substring, SLASH, |species|);
  }

  // ---------------------------------------------------------------- the name dictionary

  /** A Python dict from dataset names to arrays: its items in insertion order. */
  type Dict = seq<(string, seq<Double>)>

  /** `d.get(k)`. */
  function Get(d: Dict, k: string): (r: Option<seq<Double>>)
    ensures r.None? <==> forall i :: 0 <= i < |d| ==> d[i].0 != k
    ensures r.Some? ==> exists i :: 0 <= i < |d| && d[i] == (k, r.value)
  {
    if d == [] then None
    else if d[0].0 == k then Some(d[0].1)
    else
      var r := Get(d[1..], k);
      assert forall i :: 0 < i < |d| ==> d[i] == d[1..][i - 1];
      r
  }

  /** `d[k] = v`: an existing key keeps its place and takes the new value; a new key goes last. */
  function Put(d: Dict, k: string, v: seq<Double>): (r: Dict)
    ensures Get(d, k).Some? ==> |r| == |d|
    ensures Get(d, k).None? ==> |r| == |d| + 1 && r[|d|] == (k, v)
    ensures forall i :: 0 <= i < |d| ==> r[i].0 == d[i].0
  {
    if d == [] then [(k, v)]
    else if d[0].0 == k then [(k, v)] + d[1..]
    else [d[0]] + Put(d[1..], k, v)
  }

  lemma {:induction false} PutGet(d: Dict, k: string, v: seq<Double>, key: string)
    ensures Get(Put(d, k, v), key) == if key == k then Some(v) else Get(d, key)
  {
    if d != [] && d[0].0 != k {
      PutGet(d[1..], k, v, key);
      assert Put(d, k, v)[1..] == Put(d[1..], k, v);
    }
  }

  predicate KeysDistinct(d: Dict) {
    forall i, j :: 0 <= i < j < |d| ==> d[i].0 != d[j].0
  }

  lemma PutKeepsKeysDistinct(d: Dict, k: string, v: seq<Double>)
    requires KeysDistinct(d)
    ensures KeysDistinct(Put(d, k, v))
  {
    var r := Put(d, k, v);
    if Get(d, k).None? {
      forall i, j | 0 <= i < j < |r| ensures r[i].0 != r[j].0 {
        if j == |d| {
          assert d[i].0 != k;
        }
      }
    }
  }

  /** `dict_array_names` after the first loop of `write_iteration`. */
  function ArrayNames(sets: seq<Node>): Dict
    requires AllDatasets(sets)
  {
    if sets == [] then []
    else
      var init, last := sets[..|sets| - 1], sets[|sets| - 1];
      match DatasetName(last.name)
      case None => ArrayNames(init)
      case Some(k) => Put(ArrayNames(init), k, last.values)
  }

  /** Every key occurs once. */
  lemma {:induction false} ArrayNamesKeysDistinct(sets: seq<Node>)
    requires AllDatasets(sets)
    ensures KeysDistinct(ArrayNames(sets))
  {
    if sets != [] {
      var init, last := sets[..|sets| - 1], sets[|sets| - 1];
      ArrayNamesKeysDistinct(init);
      if DatasetName(last.name).Some? {
        PutKeepsKeysDistinct(ArrayNames(init), DatasetName(last.name).value, last.values);
      }
    }
  }

  /** A key no dataset's path yields is not in the dictionary. */
  lemma {:induction false} ArrayNamesMiss(sets: seq<Node>, k: string)
    requires AllDatasets(sets)
    requires forall i :: 0 <= i < |sets| ==> DatasetName(sets[i].name) != Some(k)
    ensures Get(ArrayNames(sets), k) == None
  {
    if sets != [] {
      var init, last := sets[..|sets| - 1], sets[|sets| - 1];
      assert forall i :: 0 <= i < |init| ==> init[i] == sets[i];
      ArrayNamesMiss(init, k);
      if DatasetName(last.name).Some? {
        PutGet(ArrayNames(init), DatasetName(last.name).value, last.values, k);
      }
    }
  }

  /** A key some dataset's path yields is in the dictionary. */
  lemma {:induction false} ArrayNamesHit(sets: seq<Node>, k: string, i: nat)
    requires AllDatasets(sets)
    requires i < |sets| && DatasetName(sets[i].name) == Some(k)
    ensures Get(ArrayNames(sets), k).Some?
  {
    var init, last := sets[..|sets| - 1], sets[|sets| - 1];
    if i == |sets| - 1 {
      PutGet(ArrayNames(init), k, last.values, k);
    } else {
      ArrayNamesHit(init, k, i);
      if DatasetName(last.name).Some? {
        PutGet(ArrayNames(init), DatasetName(last.name).value, last.values, k);
      }
    }
  }

  /** Under each key the dictionary holds the values of the last dataset that yields it. */
  lemma {:induction false} ArrayNamesHoldLast(sets: seq<Node>, k: string, i: nat)
    requires AllDatasets(sets)
    requires i < |sets| && DatasetName(sets[i].name) == Some(k)
    requires forall j :: i < j < |sets| ==> DatasetName(sets[j].name) != Some(k)
    ensures Get(ArrayNames(sets), k) == Some(sets[i].values)
  {
    var init, last := sets[..|sets| - 1], sets[|sets| - 1];
    if i == |sets| - 1 {
      PutGet(ArrayNames(init), k, last.values, k);
    } else {
      ArrayNamesHoldLast(init, k, i);
      if DatasetName(last.name).Some? {
        PutGet(ArrayNames(init), DatasetName(last.name).value, last.values, k);
      }
    }
  }

  /** The first loop of `write_iteration`. */
  method CollectArrays(sets: seq<Node>) returns (d: Dict)
    requires AllDatasets(sets)
    ensures d == ArrayNames(sets)
  {
    d := [];
    for i := 0 to |sets|
      invariant d == ArrayNames(sets[..i])
    {
      assert sets[..i + 1][..i] == sets[..i];
      var key := sets[i];
      var myArray := key.values;
      var dictName := DatasetName(key.name);
      if dictName.None? {
        continue;
      }
      d := Put(d, dictName.value, myArray);
    }
    assert sets[..|sets|] == sets;
  }

  // ---------------------------------------------------------------- write_iteration

  /** `write_double_dataset(gdf_file, name, size, values)`: name, tag 2051, 8 * size, the doubles. */
  function DoubleDataset(name: string, size: nat, values: seq<Double>): Emission {
    Then(Then(DatasetHeader(name), Int32Field(8 * size)), PackDoubles(values, size))
  }

  method WriteDoubleDataset(f: GdfFile, name: string, size: nat, values: seq<Double>) returns (st: Status)
    modifies f
    ensures f.bytes == old(f.bytes) + DoubleDataset(name, size, values).out
    ensures st == DoubleDataset(name, size, values).status
  {
    ghost var start := f.bytes;
    st := WriteDatasetHeader(f, name);
    if st.Raised? { return; }
    Appended(start, DatasetHeader(name), Int32Field(8 * size));
    st := WriteInt32(f, 8 * size);
    if st.Raised? { return; }
    Appended(start, Then(DatasetHeader(name), Int32Field(8 * size)), PackDoubles(values, size));
    st := WriteDoubles(f, values, size);
  }

  /** With a short ASCII name and its own length, the block is the header and the doubles, which decode back. */
  lemma DoubleDatasetLayout(name: string, values: seq<Double>)
    requires AllAscii(name) && |name| <= GDFNAMELEN && FitsInt32(8 * |values|)
    ensures DoubleDataset(name, |values|, values)
      == Done(NameField(name).out + PackInt32(ARRAY_DOUBLE_TAG) + PackInt32(8 * |values|) + EncodeDoubles(values))
    ensures ArrayBlockDecodes(DoubleDataset(name, |values|, values).out, values)
  {
    NameFieldOfAscii(name);
    DoublesRoundTrip(values);
    var out := NameField(name).out + PackInt32(ARRAY_DOUBLE_TAG) + PackInt32(8 * |values|) + EncodeDoubles(values);
    assert out[20..24] == PackInt32(8 * |values|);
    assert out[24..] == EncodeDoubles(values);
    Int32RoundTrip(8 * |values|);
  }

  /** One pass of the second loop: the array's block when the table knows its key, else nothing. */
  function ArrayEntryBlock(entry: (string, seq<Double>)): Emission {
    match HdfGdfName(entry.0)
    case None => Done([])
    case Some(name) => DoubleDataset(name, |entry.1|, entry.1)
  }

  /** The second loop of `write_iteration`, looking names up in the converter's own table. */
  method WriteArrays(f: GdfFile, d: Dict) returns (st: Status)
    modifies f
    ensures f.bytes == old(f.bytes) + Blocks(ArrayEntryBlock, d).out
    ensures st == Blocks(ArrayEntryBlock, d).status
  {
    ghost var start := f.bytes;
    st := Ok;
    for i := 0 to |d|
      invariant f.bytes == start + Blocks(ArrayEntryBlock, d[..i]).out
      invariant Blocks(ArrayEntryBlock, d[..i]).status == Ok && st == Ok
    {
      BlocksSnoc(ArrayEntryBlock, d, i);
      Appended(start, Blocks(ArrayEntryBlock, d[..i]), ArrayEntryBlock(d[i]));
      var key := d[i].0;
      var values := d[i].1;
      var name := HdfGdfName(key);
      if name.Some? {
        st := WriteDoubleDataset(f, name.value, |values|, values);
        if st.Raised? {
          BlocksStopAtRaise(ArrayEntryBlock, d, i + 1);
          return;
        }
      } else {
        assert f.bytes == (start + Blocks(ArrayEntryBlock, d[..i]).out) + [];
      }
    }
    assert d[..|d|] == d;
  }

  /** `write_iteration` with the table lookup resolved to this converter's `Name_of_arrays`. */
  function IterationArrays(nodes: seq<Node>): Emission {
    Blocks(ArrayEntryBlock, ArrayNames(Datasets(nodes)))
  }

  method WriteIteration(f: GdfFile, nodes: seq<Node>) returns (st: Status)
    modifies f
    ensures f.bytes == old(f.bytes) + IterationArrays(nodes).out
    ensures st == IterationArrays(nodes).status
  {
    var collector := new DatasetCollector();
    VisitItems(collector, nodes);
    assert collector.sets == Datasets(nodes);
    var arrayNames := CollectArrays(collector.sets);
    st := WriteArrays(f, arrayNames);
  }

  /** The second loop as written: the name `dict_datasets` is not defined in this module, so the first key raises. */
  function ArraysAsWritten(d: Dict): Emission {
    if d == [] then Done([]) else Fail(UndefinedName)
  }

  function IterationAsWritten(nodes: seq<Node>): Emission {
    ArraysAsWritten(ArrayNames(Datasets(nodes)))
  }

  /** As written, a file holding any dataset under `particles` gets no array block at all. */
  lemma AsWrittenWritesNoArrays(nodes: seq<Node>, i: nat)
    requires i < |nodes| && nodes[i].Dataset? && DatasetName(nodes[i].name).Some?
    ensures IterationAsWritten(nodes) == Fail(UndefinedName)
  {
    var sets := Datasets(nodes);
    DatasetsMembers(nodes, nodes[i]);
    var j :| 0 <= j < |sets| && sets[j] == nodes[i];
    ArrayNamesHit(sets, DatasetName(nodes[i].name).value, j);
  }

  /** The dictionary of a walk with a single keyed dataset holds just that array. */
  lemma SingleDatasetNames(path: string, values: seq<Double>, k: string)
    requires DatasetName(path) == Some(k)
    ensures ArrayNames(Datasets([Dataset(path, values)])) == [(k, values)]
  {
    var node := Dataset(path, values);
    assert [node][..0] == [];
    assert Datasets([node]) == [node];
  }

  /**
   * A file whose one dataset has a key the table knows, such as a species' `charge`
   * array: as written the conversion raises before writing it; resolved to the table
   * it writes the array under its GDF name.
   */
  lemma SingleDatasetExample(path: string, values: seq<Double>, k: string)
    requires DatasetName(path) == Some(k) && HdfGdfName(k).Some?
    ensures IterationAsWritten([Dataset(path, values)]) == Fail(UndefinedName)
    ensures IterationArrays([Dataset(path, values)]) == DoubleDataset(HdfGdfName(k).value, |values|, values)
  {
    SingleDatasetNames(path, values, k);
    SingleEntryBlocks(k, values);
  }

  lemma SingleEntryBlocks(k: string, values: seq<Double>)
    requires HdfGdfName(k).Some?
    ensures Blocks(ArrayEntryBlock, [(k, values)]) == DoubleDataset(HdfGdfName(k).value, |values|, values)
  {
    var d := [(k, values)];
    assert d[..0] == [];
    var b := ArrayEntryBlock(d[0]);
    assert Then(Done([]), b) == b;
  }

  // ---------------------------------------------------------------- root attributes

  /**
   * The root attributes the converter reads, each absent or present. The creation date
   * is given already parsed; the others are the stored bytes.
   */
  datatype RootAttributes = RootAttributes(
    date: Option<Timestamp>,
    software: Option<seq<byte>>,
    destination: Option<seq<byte>>,
    gdfVersion: Option<seq<byte>>,
    softwareVersion: Option<seq<byte>>,
    destinationVersion: Option<seq<byte>>)

  /** `add_time_root_attribute`: the seconds as an int32, or nothing at all when there is no date. */
  function TimeAttribute(date: Option<Timestamp>): Emission {
    match date
    case None => Done([])
    case Some(t) => TimeField(t)
  }

  method AddTimeAttribute(f: GdfFile, date: Option<Timestamp>) returns (st: Status)
    modifies f
    ensures f.bytes == old(f.bytes) + TimeAttribute(date).out && st == TimeAttribute(date).status
  {
    if date.None? {
      return Ok;
    }
    st := AddTime(f, date.value);
  }

  /** `add_creator_name_root_attribute` and `add_dest_name_root_attribute`: the decoded name, or `empty`. */
  function NameAttribute(attr: Option<seq<byte>>): Emission {
    match attr
    case None => NameField(EMPTY)
    case Some(b) => NameField(DecodeAsciiIgnore(b))
  }

  method AddNameAttribute(f: GdfFile, attr: Option<seq<byte>>) returns (st: Status)
    modifies f
    ensures f.bytes == old(f.bytes) + NameAttribute(attr).out && st == NameAttribute(attr).status
  {
    if attr.Some? {
      var decoded := DecodeAsciiIgnore(attr.value);
      st := WriteString(f, decoded);
    } else {
      st := WriteString(f, EMPTY);
    }
  }

  /**
   * The decoding drops every byte that is not ASCII, so writing the name never raises;
   * it is at least sixteen bytes, and a short name without NULs reads back from it.
   */
  lemma NameAttributeNeverRaises(attr: Option<seq<byte>>)
    ensures NameAttribute(attr).status == Ok
    ensures |NameAttribute(attr).out| >= GDFNAMELEN
    ensures attr.None? ==> NameOf(NameAttribute(attr).out) == EMPTY
    ensures (attr.Some? && |DecodeAsciiIgnore(attr.value)| <= GDFNAMELEN && NUL !in DecodeAsciiIgnore(attr.value))
              ==> NameOf(NameAttribute(attr).out) == DecodeAsciiIgnore(attr.value)
  {
    match attr
    case None =>
      NameFieldOfAscii(EMPTY);
      NameFieldRoundTrip(EMPTY);
    case Some(b) =>
      var name := DecodeAsciiIgnore(b);
      NameFieldOfAscii(name);
      if |name| <= GDFNAMELEN && NUL !in name {
        NameFieldRoundTrip(name);
      }
  }

  // ---------------------------------------------------------------- versions

  /**
   * `int(major)`, its byte, `int(minor)`, its byte, then both bytes are written.
   * The first of these to fail raises and nothing is written.
   */
  function VersionFromParts(major: string, minor: string): (e: Emission)
    ensures e.status == Ok <==>
      (ParseInt(major).Some? && ParseInt(minor).Some?
       && 0 <= ParseInt(major).value < 256 && 0 <= ParseInt(minor).value < 256)
    ensures e.status == Ok ==> e.out == [ParseInt(major).value as byte, ParseInt(minor).value as byte]
    ensures e.status != Ok ==> e.out == []
    ensures e == Fail(BadValue) <==>
      (ParseInt(major).None? || (0 <= ParseInt(major).value < 256 && ParseInt(minor).None?))
  {
    match ParseInt(major)
    case None => Fail(BadValue)
    case Some(hi) =>
      if PackUInt8(hi).None? then Fail(OutOfRange)
      else
        match ParseInt(minor)
        case None => Fail(BadValue)
        case Some(lo) => VersionField(hi, lo)
  }

  /** The parts `add_versions` cuts a version string into, as written: both slices start one character early. */
  function SplitVersionAsWritten(s: string): (string, string) {
    var idx := Find(s, DOT);
    if idx == -1 then (s, "0") else (PySlice(s, 0, idx - 1), PySlice(s, idx - 1, |s| - 1))
  }

  /** The parts around the first '.', or the whole string and "0" without one. */
  function SplitVersion(s: string): (string, string) {
    var idx := Find(s, DOT);
    if idx == -1 then (s, "0") else (s[..idx], s[idx + 1..])
  }

  /** `add_versions` as written. */
  function VersionAttributeAsWritten(attr: Option<seq<byte>>): Emission {
    match attr
    case None => VersionField(0, 0)
    case Some(b) =>
      var parts := SplitVersionAsWritten(DecodeAsciiIgnore(b));
      VersionFromParts(parts.0, parts.1)
  }

  /** `add_versions` with the string split at its '.'. */
  function VersionAttribute(attr: Option<seq<byte>>): Emission {
    match attr
    case None => VersionField(0, 0)
    case Some(b) =>
      var parts := SplitVersion(DecodeAsciiIgnore(b));
      VersionFromParts(parts.0, parts.1)
  }

  method AddVersions(f: GdfFile, attr: Option<seq<byte>>) returns (st: Status)
    modifies f
    ensures f.bytes == old(f.bytes) + VersionAttribute(attr).out && st == VersionAttribute(attr).status
  {
    if attr.None? {
      st := WriteVersion(f, 0, 0);
      return;
    }
    var decoded := DecodeAsciiIgnore(attr.value);
    var pointIdx := Find(decoded, DOT);
    var major, minor;
    if pointIdx == -1 {
      major, minor := decoded, "0";
    } else {
      major, minor := decoded[..pointIdx], decoded[pointIdx + 1..];
    }
    var hi := ParseInt(major);
    if hi.None? {
      return Raised(BadValue);
    }
    var majorBin := PackUInt8(hi.value);
    if majorBin.None? {
      return Raised(OutOfRange);
    }
    var lo := ParseInt(minor);
    if lo.None? {
      return Raised(BadValue);
    }
    st := WriteVersion(f, hi.value, lo.value);
  }

  /** The version string "a.b" of two decimal numbers. */
  function DottedVersion(a: nat, b: nat): (s: string)
    ensures AllAscii(s) && Find(s, DOT) == |Decimal(a)|
  {
    var s := Decimal(a) + DOT + Decimal(b);
    assert AllAscii(s) by {
      forall i | 0 <= i < |s| ensures IsAscii(s[i]) {
        if i < |Decimal(a)| { assert s[i] == Decimal(a)[i]; }
        else if i > |Decimal(a)| { assert s[i] == Decimal(b)[i - |Decimal(a)| - 1]; }
      }
    }
    assert MatchAt(s, DOT, |Decimal(a)|) by { assert s[|Decimal(a)|..|Decimal(a)| + 1] == DOT; }
    forall i | 0 <= i < |Decimal(a)| ensures !MatchAt(s, DOT, i) {
      assert s[i..i + 1] == [Decimal(a)[i]];
    }
    FindFirst(s, DOT, |Decimal(a)|);
    s
  }

  /**
   * As written, every version "a.b" raises and writes nothing. The major part is a
   * without its last digit, so it is '' below 10 and a / 10 from 10 on; when that
   * fits in a byte, `int()` of the minor part, which keeps the '.', raises instead.
   */
  lemma VersionAsWrittenRejectsDotted(a: nat, b: nat)
    ensures VersionAttributeAsWritten(Some(AsciiBytes(DottedVersion(a, b)))).out == []
    ensures VersionAttributeAsWritten(Some(AsciiBytes(DottedVersion(a, b))))
      == Fail(if a < 2560 then BadValue else OutOfRange)
  {
    var s := DottedVersion(a, b);
    DecodeAsciiIgnoreOfAscii(s);
    var k := |Decimal(a)|;
    var major := PySlice(s, 0, k - 1);
    var minor := PySlice(s, k - 1, |s| - 1);
    assert minor == s[k - 1..|s| - 1];
    assert minor[1] == s[k] == '.';
    ParseIntRejectsDot(minor, 1);
    assert SplitVersionAsWritten(s) == (major, minor);
    if a < 10 {
      assert major == [];
    } else {
      assert major == s[..k - 1] == Decimal(a)[..k - 1];
      assert Decimal(a)[..k - 1] == Decimal(a / 10);
      ParseDecimal(a / 10);
    }
  }

  /** Split at its '.', the version "a.b" writes the bytes a and b. */
  lemma VersionRoundTrip(a: nat, b: nat)
    ensures VersionAttribute(Some(AsciiBytes(DottedVersion(a, b)))) == VersionField(a, b)
  {
    var s := DottedVersion(a, b);
    DecodeAsciiIgnoreOfAscii(s);
    var k := |Decimal(a)|;
    assert s[..k] == Decimal(a);
    assert s[k + 1..] == Decimal(b);
    ParseDecimal(a);
    ParseDecimal(b);
  }

  /** A version without a '.' is the major number with minor 0, as written and corrected alike. */
  lemma VersionWithoutDot(a: nat)
    ensures VersionAttribute(Some(AsciiBytes(Decimal(a)))) == VersionField(a, 0)
    ensures VersionAttributeAsWritten(Some(AsciiBytes(Decimal(a)))) == VersionField(a, 0)
  {
    var s := Decimal(a);
    DecodeAsciiIgnoreOfAscii(s);
    forall i | 0 <= i ensures !MatchAt(s, DOT, i) {
      if i < |s| {
        assert s[i..i + 1] == [s[i]];
      }
    }
    ParseDecimal(a);
    ParseDecimal(0);
  }

  /** `add_required_version_root_attribute`: the three version attributes, in order. */
  function RequiredVersionAttributes(attrs: RootAttributes): Emission {
    Then(Then(VersionAttribute(attrs.gdfVersion), VersionAttribute(attrs.softwareVersion)), VersionAttribute(attrs.destinationVersion))
  }

  method AddRequiredVersionAttributes(f: GdfFile, attrs: RootAttributes) returns (st: Status)
    modifies f
    ensures f.bytes == old(f.bytes) + RequiredVersionAttributes(attrs).out
    ensures st == RequiredVersionAttributes(attrs).status
  {
    ghost var start := f.bytes;
    st := AddVersions(f, attrs.gdfVersion);
    if st.Raised? { return; }
    Appended(start, VersionAttribute(attrs.gdfVersion), VersionAttribute(attrs.softwareVersion));
    st := AddVersions(f, attrs.softwareVersion);
    if st.Raised? { return; }
    Appended(start, Then(VersionAttribute(attrs.gdfVersion), VersionAttribute(attrs.softwareVersion)),
             VersionAttribute(attrs.destinationVersion));
    st := AddVersions(f, attrs.destinationVersion);
  }

  // ---------------------------------------------------------------- the file

  /** The root record: id, time, creator, destination, three versions and the first block. */
  function HdfRootRecord(attrs: RootAttributes): Emission {
    Then(Then(Then(Then(Then(
      GdfIdField(), TimeAttribute(attrs.date)), NameAttribute(attrs.software)), NameAttribute(attrs.destination)),
      RequiredVersionAttributes(attrs)), FirstBlock())
  }

  const NO_ATTRIBUTES: RootAttributes := RootAttributes(None, None, None, None, None, None)

  /** `gdf_file_to_hdf_file`: the root record, then the arrays. */
  function HdfConversion(attrs: RootAttributes, nodes: seq<Node>): Emission {
    Then(HdfRootRecord(attrs), IterationArrays(nodes))
  }

  method GdfFileToHdfFile(f: GdfFile, attrs: RootAttributes, nodes: seq<Node>) returns (st: Status)
    modifies f
    ensures f.bytes == old(f.bytes) + HdfConversion(attrs, nodes).out
    ensures st == HdfConversion(attrs, nodes).status
  {
    GdfIdBytes();
    FirstBlockBytes();
    NameAttributeNeverRaises(attrs.software);
    NameAttributeNeverRaises(attrs.destination);
    ghost var start := f.bytes;
    ghost var done := GdfIdField();
    st := AddGdfId(f);
    Appended(start, done, TimeAttribute(attrs.date));
    done := Then(done, TimeAttribute(attrs.date));
    st := AddTimeAttribute(f, attrs.date);
    if st.Raised? { return; }
    Appended(start, done, NameAttribute(attrs.software));
    done := Then(done, NameAttribute(attrs.software));
    st := AddNameAttribute(f, attrs.software);
    Appended(start, done, NameAttribute(attrs.destination));
    done := Then(done, NameAttribute(attrs.destination));
    st := AddNameAttribute(f, attrs.destination);
    Appended(start, done, RequiredVersionAttributes(attrs));
    done := Then(done, RequiredVersionAttributes(attrs));
    st := AddRequiredVersionAttributes(f, attrs);
    if st.Raised? { return; }
    Appended(start, done, FirstBlock());
    done := Then(done, FirstBlock());
    st := WriteFirstBlock(f);
    Appended(start, done, IterationArrays(nodes));
    st := WriteIteration(f, nodes);
  }

  /**
   * With no root attribute at all the record is 44 bytes: the magic number, no time,
   * `empty` twice, six zero version bytes and the characters '0' '0'.
   */
  lemma EmptyNameField()
    ensures NameField(EMPTY).status == Ok && |NameField(EMPTY).out| == GDFNAMELEN
  {
    NameFieldOfAscii(EMPTY);
  }

  lemma BareRootRecord()
    ensures HdfRootRecord(NO_ATTRIBUTES)
      == Done([0x75, 0x4C, 0x9F, 0x05] + NameField(EMPTY).out + NameField(EMPTY).out + [0, 0, 0, 0, 0, 0] + [0x30, 0x30])
    ensures |HdfRootRecord(NO_ATTRIBUTES).out| == 44
  {
    GdfIdBytes();
    FirstBlockBytes();
    EmptyNameField();
    var id: seq<byte> := [0x75, 0x4C, 0x9F, 0x05];
    var name := NameField(EMPTY).out;
    var r := Then(GdfIdField(), TimeAttribute(None));
    assert r == Done(id);
    r := Then(r, NameAttribute(None));
    assert r == Done(id + name);
    r := Then(r, NameAttribute(None));
    assert r == Done(id + name + name);
    assert VersionAttribute(None) == Done([0, 0]);
    assert RequiredVersionAttributes(NO_ATTRIBUTES) == Done([0, 0, 0, 0, 0, 0]);
    r := Then(r, RequiredVersionAttributes(NO_ATTRIBUTES));
    assert r == Done(id + name + name + [0, 0, 0, 0, 0, 0]);
  }

  // ---------------------------------------------------------------- command line

  /** `arg[-4:] == '.gdf'`. */
  predicate IsGdfArg(arg: string) {
    PySlice(arg, -4, |arg|) == GDF_EXT
  }

  /** The `elif` branch: `arg[-3:] == '.h5'` for an argument that is not a .gdf path. */
  predicate IsHdfArg(arg: string) {
    !IsGdfArg(arg) && PySlice(arg, -3, |arg|) == H5_EXT
  }

  /** The last argument the test accepts, or '' when there is none. */
  function LastWhere(keep: string -> bool, args: seq<string>): string {
    if args == [] then ""
    else if keep(args[|args| - 1]) then args[|args| - 1]
    else LastWhere(keep, args[..|args| - 1])
  }

  /** The last accepted argument is chosen, and nothing is chosen when no argument is accepted. */
  lemma {:induction false} LastWhereIsLast(keep: string -> bool, args: seq<string>, i: nat)
    requires i < |args| && keep(args[i])
    requires forall j :: i < j < |args| ==> !keep(args[j])
    ensures LastWhere(keep, args) == args[i]
  {
    if i < |args| - 1 {
      LastWhereIsLast(keep, args[..|args| - 1], i);
    }
  }

  lemma {:induction false} LastWhereNone(keep: string -> bool, args: seq<string>)
    requires forall j :: 0 <= j < |args| ==> !keep(args[j])
    ensures LastWhere(keep, args) == ""
  {
    if args != [] {
      LastWhereNone(keep, args[..|args| - 1]);
    }
  }

  /** The two tests are the suffix tests, and an argument is never both. */
  lemma ArgKinds(arg: string)
    ensures IsGdfArg(arg) <==> EndsWith(arg, GDF_EXT)
    ensures IsHdfArg(arg) <==> EndsWith(arg, H5_EXT)
  {
    TailIsSuffixTest(arg, GDF_EXT);
    TailIsSuffixTest(arg, H5_EXT);
    if EndsWith(arg, H5_EXT) {
      assert arg[|arg| - 1] == '5';
    }
  }

  /** `files_from_args`: the last .gdf argument and the last .h5 argument, '' for either that is missing. */
  method FilesFromArgs(args: seq<string>) returns (gdf: string, hdf: string)
    ensures gdf == LastWhere(IsGdfArg, args) && hdf == LastWhere(IsHdfArg, args)
  {
    gdf, hdf := "", "";
    for i := 0 to |args|
      invariant gdf == LastWhere(IsGdfArg, args[..i]) && hdf == LastWhere(IsHdfArg, args[..i])
    {
      assert args[..i + 1][..i] == args[..i];
      var arg := args[i];
      if PySlice(arg, -4, |arg|) == GDF_EXT {
        gdf := arg;
      } else if PySlice(arg, -3, |arg|) == H5_EXT {
        hdf := arg;
      }
    }
    assert args[..|args|] == args;
  }

  /**
   * `converter(hdf_file, gdf_file)` as written: the path the file is written to, or
   * nothing when no .h5 path was given or it does not exist. Both branches cut four
   * characters, which for a `.h5` path is one too many.
   */
  function OutputPathAsWritten(hdf: string, gdf: string, hdfExists: bool): Option<string> {
    if hdf == "" || !hdfExists then None
    else if gdf == "" then Some(PySlice(hdf, 0, -4) + GDF_EXT)
    else Some(PySlice(gdf, 0, -4) + GDF_EXT)
  }

  /** `converter` with the default path cutting the three characters of `.h5`. */
  function OutputPath(hdf: string, gdf: string, hdfExists: bool): Option<string> {
    if hdf == "" || !hdfExists then None
    else if gdf == "" then Some(PySlice(hdf, 0, -3) + GDF_EXT)
    else Some(PySlice(gdf, 0, -4) + GDF_EXT)
  }

  /** As written, `<base>.h5` is converted to `<base>` without its last character, plus `.gdf`. */
  lemma OutputPathAsWrittenDropsChar(base: string)
    requires |base| > 0
    ensures OutputPathAsWritten(base + H5_EXT, "", true) == Some(base[..|base| - 1] + GDF_EXT)
  {
    assert PySlice(base + H5_EXT, 0, -4) == (base + H5_EXT)[..|base| - 1];
    assert (base + H5_EXT)[..|base| - 1] == base[..|base| - 1];
  }

  /**
   * `<base>.h5` is converted to `<base>.gdf`; a given .gdf path is kept as it is; and
   * nothing is converted without an existing .h5 path.
   */
  lemma OutputPathReplacesExtension(base: string, gdf: string, hdfExists: bool)
    ensures OutputPath(base + H5_EXT, "", true) == Some(base + GDF_EXT)
    ensures EndsWith(gdf, GDF_EXT) ==> OutputPath(base + H5_EXT, gdf, true) == Some(gdf)
    ensures OutputPath(base + H5_EXT, gdf, hdfExists).None? <==> !hdfExists
  {
    assert PySlice(base + H5_EXT, 0, -3) == base;
    if EndsWith(gdf, GDF_EXT) {
      assert PySlice(gdf, 0, -4) + GDF_EXT == gdf;
    }
  }

  /** `main(file_names)`: the arguments picked, then the output path. */
  function Destination(args: seq<string>, pathExists: string -> bool): Option<string> {
    var hdf := LastWhere(IsHdfArg, args);
    OutputPath(hdf, LastWhere(IsGdfArg, args), pathExists(hdf))
  }

  /** A command line naming one existing `<base>.h5` file and no .gdf file converts to `<base>.gdf`. */
  lemma DestinationOfOneH5(args: seq<string>, i: nat, base: string, pathExists: string -> bool)
    requires i < |args| && args[i] == base + H5_EXT && pathExists(base + H5_EXT)
    requires forall j :: 0 <= j < |args| && j != i ==> !EndsWith(args[j], GDF_EXT) && !EndsWith(args[j], H5_EXT)
    ensures Destination(args, pathExists) == Some(base + GDF_EXT)
  {
    forall j | 0 <= j < |args| ensures !IsGdfArg(args[j]) {
      ArgKinds(args[j]);
    }
    forall j | i < j < |args| ensures !IsHdfArg(args[j]) {
      ArgKinds(args[j]);
    }
    ArgKinds(args[i]);
    assert EndsWith(base + H5_EXT, H5_EXT);
    LastWhereIsLast(IsHdfArg, args, i);
    LastWhereNone(IsGdfArg, args);
    OutputPathReplacesExtension(base, "", true);
  }
}
