# GDF encoder model

This project models the part of the two openPMD/HDF5-to-GDF converters that writes GDF files.
GDF is the flat, tagged binary format of the General Particle Tracer (GPT).
The model covers `openPMD_to_gdf.py` and `hdf_to_gdf.py`.
Both scripts carry a near-identical copy of the block writer, which the model holds once.
Everything is written to an output file that only ever grows at its end.

- `Bytes` holds the integer and double encodings.
  - `struct.pack('i')` is a 4-byte little-endian two's-complement int32.
  - `struct.pack('B')` is one unsigned byte.
  - `struct.pack('d')` is the 8 little-endian bytes of an IEEE-754 bit pattern.
- `Text` holds the Python string operations the encoder relies on:
  - ASCII encoding, and decoding with `errors='ignore'`;
  - slicing with negative bounds;
  - `str.find`, `in` and `int()`.
- `Sink` holds the output file and the vocabulary that specifies writers.
  - `GdfFile` is a class with a `bytes` field that `Write` appends to.
  - An `Emission` is what a writer appends together with how it ended, either `Ok` or a raised Python exception.
  - `Blocks` is a loop writing one block per element; an exception ends the loop.
- `Writer` holds the shared block writers:
  - the 16-character name field;
  - the ASCII block (tag 1025), the `time` scalar (tag 1283) and the array header (tag 2051);
  - the magic id, the version bytes, the creation time and the `'00'` sentinel.
- `Streamer` holds the chunked array streamer `write_dataset_values`.
  - `[0, size)` is cut into `size / m` full chunks and one remainder chunk.
  - Each chunk is read, transformed value by value, then packed and written.
  - It also holds the readers the converter hands it, and the double-array block (a header, then the stream).
- `OpenPmd` is the openPMD converter:
  - the root record;
  - for every iteration, the `time` scalar, then each selected species.
  - Each species is a `var` block naming it, then its momentum, position, mass, charge, weight and `rmacro` arrays.
  - The openPMD series is handed to the model as values.
  - Floating-point arithmetic is the parameter record `FloatOps`.
- `Hdf` is the HDF5 converter:
  - the dataset collector `Collect_Datasets`;
  - the name dictionary built by `write_iteration` and its second loop;
  - the root attributes, the version-string parser, `files_from_args` and the output-path logic of `converter`.
  - The writers `WriteArrays`, `WriteIteration`, `AddVersions` and `GdfFileToHdfFile` follow the code with two corrections, listed under "## Findings".
  - The table lookup at hdf_to_gdf.py:95 is resolved to `Name_of_arrays.dict_datasets`. As written, it raises NameError; that is `ArraysAsWritten` and `IterationAsWritten`.
  - The version string is split at its '.'. As written, the slices at hdf_to_gdf.py:191-192 start one character early; that is `VersionAttributeAsWritten`.

Every method that writes is proved against a function.
It appends exactly `F(...).out` and returns `F(...).status`, for a function `F` of its inputs.
Lemmas then state what those functions promise:

- chunking is invisible;
- field lengths announce exactly the bytes that follow;
- encoded values read back;
- errors raise at the point the source raises them, after exactly the bytes written before that point.

## Model

| member | source | states |
|---|---|---|
| Bytes.LittleEndian | openPMD_to_gdf.py:441 | The little-endian form of an integer in n bytes has exactly n bytes |
| Bytes.FromLittleEndian | openPMD_to_gdf.py:441 | n little-endian bytes denote a number below 256^n |
| Bytes.LittleEndianRoundTrip | openPMD_to_gdf.py:441 | The n little-endian bytes of any u < 256^n read back as u |
| Bytes.PackInt32 | openPMD_to_gdf.py:334 | `struct.pack('i', v)` of a value inside int32 is exactly four bytes |
| Bytes.UnpackInt32 | openPMD_to_gdf.py:334 | Reading four bytes as a signed int32 gives a value inside the int32 range |
| Bytes.Int32RoundTrip | openPMD_to_gdf.py:334 | Every int32 value packs to four bytes that read back as that value |
| Bytes.EncodeDouble | openPMD_to_gdf.py:416 | `struct.pack('d', v)` is eight bytes |
| Bytes.DoubleRoundTrip | openPMD_to_gdf.py:416 | The eight bytes of a double read back as the same double |
| Bytes.EncodeDoubles | openPMD_to_gdf.py:313 | Packing n doubles gives 8·n bytes |
| Bytes.DecodeDoubles | openPMD_to_gdf.py:313 | A payload of 8·n bytes reads back as n doubles |
| Bytes.EncodeDoublesAppend | openPMD_to_gdf.py:302-325 | Packing a + b is packing a then packing b, so values may be packed in pieces |
| Bytes.DoublesRoundTrip | openPMD_to_gdf.py:313 | A packed double payload decodes to exactly the values packed, in order |
| Text.Nuls | openPMD_to_gdf.py:499-500 | n NUL characters form a string of length n |
| Text.AsciiBytes | openPMD_to_gdf.py:507 | Encoding an ASCII string gives one byte per character |
| Text.AsciiCharsOfBytes | openPMD_to_gdf.py:507 | ASCII encoding loses nothing: the characters are recovered from the bytes |
| Text.DecodeAsciiIgnore | hdf_to_gdf.py:157 | `decode('ascii', errors='ignore')` yields only ASCII characters and never more characters than bytes |
| Text.DecodeAsciiIgnoreByte | hdf_to_gdf.py:157 | One byte decodes to its character when it is below 128, and to nothing otherwise |
| Text.DecodeAsciiIgnoreAppend | hdf_to_gdf.py:157 | Decoding goes byte by byte: decoding a + b is decoding a followed by decoding b, so the result is exactly the bytes below 128, in order |
| Text.DecodeAsciiIgnoreMembers | hdf_to_gdf.py:157 | A character is in the decoding exactly when some byte below 128 encodes it |
| Text.DecodeAsciiIgnoreOfAsciiBytes | hdf_to_gdf.py:157 | Bytes all below 128 decode to one character each, in order |
| Text.DecodeAsciiIgnoreOfAscii | hdf_to_gdf.py:157 | Decoding the encoding of an ASCII string gives the string back |
| Text.SliceBound | hdf_to_gdf.py:191-192 | A Python slice bound, negative or past the end, is clamped into [0, len] |
| Text.PySlice | hdf_to_gdf.py:191-192 | A Python slice is never longer than the sequence; with bounds 0 <= a <= b <= len it is the elements a to b - 1; with 0 <= b <= a it is empty |
| Text.PySliceNegativeBounds | hdf_to_gdf.py:191-192 | A bound from -len to -1 counts from the end: the slice equals the one with len added to that bound |
| Text.TailIsSuffixTest | hdf_to_gdf.py:227-229 | `arg[-k:] == suffix` holds exactly when arg ends with the k-character suffix |
| Text.FindFrom | hdf_to_gdf.py:87 | `find` from a start index gives -1 or a match at or after it, and there is no earlier match |
| Text.Find | hdf_to_gdf.py:83 | `find` gives -1 exactly when the pattern does not occur, and otherwise the leftmost occurrence |
| Text.FindFirst | hdf_to_gdf.py:186 | When the first match is at k, `find` gives k |
| Text.ParseInt | hdf_to_gdf.py:194-195 | `int()` succeeds exactly on an optional sign followed by one or more digits; the value is the digits' value, negated after '-' |
| Text.ParseIntOfSignedDigits | hdf_to_gdf.py:194-195 | A sign ('', '+' or '-') followed by digits reads as the digits' value with that sign |
| Text.ParseIntRejectsDot | hdf_to_gdf.py:195 | `int()` raises on any string that contains a '.' |
| Text.Decimal | hdf_to_gdf.py:184-185 | `str(n)` of a natural number is a non-empty string of digits |
| Text.DecimalValue | hdf_to_gdf.py:194 | The digits of `str(n)` have the value n |
| Text.ParseDecimal | hdf_to_gdf.py:194 | `int(str(n)) == n` |
| Sink.Appended | openPMD_to_gdf.py:62 | Appending a completed writer's bytes, then the next writer's, is appending their sequenced emission |
| Sink.BlocksSnoc | openPMD_to_gdf.py:295-296 | A loop over k + 1 elements is the loop over k elements, then the block of element k |
| Sink.BlocksStopAtRaise | openPMD_to_gdf.py:294-296 | Once one block has raised, the elements after it write nothing |
| Sink.Filter | openPMD_to_gdf.py:261-264 | The kept elements are never more than the elements |
| Sink.FilterMembers | openPMD_to_gdf.py:261-264 | An element is kept exactly when it is in the sequence and passes the test |
| Sink.GuardedBlocks | openPMD_to_gdf.py:261-267 | A loop that skips with `continue` writes exactly the blocks of the kept elements, in order |
| Sink.GdfFile.constructor | openPMD_to_gdf.py:31 | A file opened with 'wb' starts empty |
| Sink.GdfFile.Write | openPMD_to_gdf.py:62 | `gdf_file.write(b)` appends exactly b at the end and changes nothing before it |
| Writer.TagsAreBlockTypes | openPMD_to_gdf.py:425-435 | 1025 is single_value or-ed with ascii_character; 2051 is array or-ed with double_type; 1283 is single_value, directory and double_type or-ed together |
| Writer.Int32FieldRoundTrip | openPMD_to_gdf.py:334-335 | An int32 field succeeds exactly inside int32 and then is four bytes reading back as the value; outside, it raises with nothing written |
| Writer.WriteInt32 | openPMD_to_gdf.py:334-335 | Appends exactly the int32 field and reports its status |
| Writer.PackUInt8 | openPMD_to_gdf.py:480-481 | `struct.pack('B', v)` succeeds exactly for 0 <= v < 256, giving the byte v |
| Writer.FirstNonAscii | openPMD_to_gdf.py:506-508 | Every character before the index is ASCII, and the character at it, if any, is not |
| Writer.PadName | openPMD_to_gdf.py:499-500 | The padding loop yields the name padded with NULs to 16 characters; a longer name is left as it is |
| Writer.WriteString | openPMD_to_gdf.py:496-508 | Appends exactly the name field's bytes and reports its status |
| Writer.CharWritesPrefix | openPMD_to_gdf.py:506-508 | Writing character by character writes the characters before the first non-ASCII one, which then raises |
| Writer.NameFieldOfAscii | openPMD_to_gdf.py:496-508 | An ASCII name gives max(16, len) bytes: the name's bytes, then NULs |
| Writer.NameFieldNotAscii | openPMD_to_gdf.py:506-508 | A non-ASCII name raises after writing the ASCII prefix before it, so fewer bytes than characters |
| Writer.NameFieldRoundTrip | openPMD_to_gdf.py:496-508 | An ASCII name of at most 16 characters without NUL is 16 bytes that read back as the name |
| Writer.NameOfPrefix | openPMD_to_gdf.py:499-508 | A field holding the name's bytes and then a NUL reads back as the name |
| Writer.Zeros | openPMD_to_gdf.py:406-407 | Exactly n bytes, each of them zero |
| Writer.PadTo | openPMD_to_gdf.py:406-407 | The 's' format gives exactly `size` bytes: the first `size` bytes of a longer text, or a shorter text followed by NUL bytes |
| Writer.WriteText | openPMD_to_gdf.py:405-407 | Appends exactly the text payload and reports whether its encoding raised |
| Writer.WriteAsciiName | openPMD_to_gdf.py:397-407 | Appends exactly the ASCII block and reports its status |
| Writer.AsciiBlockLayout | openPMD_to_gdf.py:397-407 | For an ASCII text of its own length, the block is the name field, 1025 and the length, then the text's bytes (24 + len bytes); a non-ASCII text raises after the 24 header bytes |
| Writer.WriteFloat | openPMD_to_gdf.py:410-416 | Appends exactly the scalar block and reports its status |
| Writer.FloatBlockLayout | openPMD_to_gdf.py:410-416 | The `time` scalar is the name field, 1283, 8 and the double (32 bytes), and the double reads back |
| Writer.WriteDatasetHeader | openPMD_to_gdf.py:419-422 | Appends exactly the name field and the tag 2051 |
| Writer.PackDoubles | openPMD_to_gdf.py:312-313 | Packing succeeds exactly when there are `count` values; it then gives 8·count bytes decoding to them, and otherwise raises with nothing written |
| Writer.WriteDoubles | openPMD_to_gdf.py:313 | Appends exactly the packed doubles and reports the status |
| Writer.WriteDataset | openPMD_to_gdf.py:367-374 | Appends exactly the length and the doubles |
| Writer.DatasetPayloadLayout | openPMD_to_gdf.py:367-374 | The length field reads back as the number of payload bytes after it, which decode to the values; a length outside int32 raises before anything is written |
| Writer.AddGdfId | openPMD_to_gdf.py:438-442 | Appends exactly the magic-id field |
| Writer.GdfIdBytes | openPMD_to_gdf.py:512 | Every GDF file starts with the bytes 75 4C 9F 05, which are 94325877 as int32 |
| Writer.WriteFirstBlock | openPMD_to_gdf.py:52-62 | Appends exactly the sentinel block |
| Writer.FirstBlockBytes | openPMD_to_gdf.py:55-62 | The sentinel is the two ASCII bytes '0' '0' (0x30 0x30), not NULs |
| Writer.VersionField | openPMD_to_gdf.py:480-483 | Succeeds exactly when both parts are in [0, 256), giving the two bytes major, minor; otherwise raises with nothing written |
| Writer.WriteVersion | openPMD_to_gdf.py:477-483 | Appends exactly the version field and reports its status |
| Writer.AddTime | openPMD_to_gdf.py:445-452 | Appends exactly the creation-time field: the seconds as int32, or a raise for an unparseable date |
| Streamer.Map | openPMD_to_gdf.py:308-310 | The transformed list has one value per read value: the transform of that value, in order |
| Streamer.MapAppend | openPMD_to_gdf.py:308-310 | Transforming a + b is transforming a, then transforming b |
| Streamer.ChunkAt | openPMD_to_gdf.py:301-304 | There are size/m + 1 chunks; chunk j < size/m is [j·m, j·m + m), and the last is [(size/m)·m, size) |
| Streamer.DivBounds | openPMD_to_gdf.py:323 | The remainder chunk's size, size - (size/m)·m, is size mod m, which is less than m |
| Streamer.ChunksPartition | openPMD_to_gdf.py:301-325 | The chunks cover [0, size) in increasing order without gap or overlap; all but the last hold m items, the last fewer, and it is empty exactly when m divides size |
| Streamer.WriteChunk | openPMD_to_gdf.py:305-313 | One pass of the loop appends exactly the packed, transformed chunk and reports whether packing raised |
| Streamer.StreamSnoc | openPMD_to_gdf.py:302-313 | Streaming k + 1 chunks is streaming k chunks, then packing chunk k |
| Streamer.StreamStopsAtRaise | openPMD_to_gdf.py:302-325 | After a chunk raises, no later chunk writes anything |
| Streamer.FullChunkStep | openPMD_to_gdf.py:302-313 | Full chunk k, read as [k·m, k·m + m), extends the stream of the first k full chunks |
| Streamer.PrefixStopsAtRaise | openPMD_to_gdf.py:302-313 | After a raise, every longer prefix of chunks writes the same as the prefix that raised |
| Streamer.WriteFullChunks | openPMD_to_gdf.py:301-313 | The loop over i = 1..size/m appends exactly the stream of the size/m full chunks |
| Streamer.StreamLast | openPMD_to_gdf.py:315-325 | The whole stream is the full chunks, then the remainder chunk [(size/m)·m, size) packed with size - (size/m)·m values |
| Streamer.WriteDatasetValues | openPMD_to_gdf.py:299-325 | Appends exactly the chunked stream and reports its status; a zero chunk size raises at once |
| Streamer.ContiguousInit | openPMD_to_gdf.py:302-304 | Dropping the last of contiguous chunks keeps them contiguous, covering up to the last one's start |
| Streamer.PackChunkReadsFrom | openPMD_to_gdf.py:305-313 | A faithful reader packs an in-range chunk as the encoded transformed slice |
| Streamer.EncodeSplit | openPMD_to_gdf.py:302-325 | The encoded values before lo, then those in [lo, hi), are the encoded values before hi |
| Streamer.StreamContiguous | openPMD_to_gdf.py:302-325 | Contiguous in-range chunks from a faithful reader complete, writing the encoded transformed prefix they cover |
| Streamer.StreamingWritesAllValues | openPMD_to_gdf.py:299-325 | For any m > 0, streaming a faithful reader writes exactly the encoded transformed values, all of them, in source order, and completes |
| Streamer.ChunkingIsInvisible | openPMD_to_gdf.py:299-325 | Two chunk sizes give the same bytes, and the same as reading everything in one chunk |
| Streamer.ZeroChunkSizeWritesNothing | openPMD_to_gdf.py:301 | `max_cell_size == 0` raises a division error before any value is written |
| Streamer.MapIdentity | openPMD_to_gdf.py:180-183 | Written without a transform, the values are unchanged |
| Streamer.SliceReaderReadsFrom | openPMD_to_gdf.py:128-133 | Reading `component[lo:hi]` is faithful to the stored component |
| Streamer.Zip | openPMD_to_gdf.py:148 | `zip` is as long as the shorter input and pairs the elements at equal indices |
| Streamer.CoordinateReaderReadsFrom | openPMD_to_gdf.py:142-149 | The coordinate reader is faithful to the zip of position and offset |
| Streamer.Repeat | openPMD_to_gdf.py:386 | `[value] * n` is n copies of the value (none for n <= 0) |
| Streamer.ConstReaderReadsFrom | openPMD_to_gdf.py:385-391 | Every chunk of the broadcast reader is the matching slice of `size` copies |
| Streamer.WholeChunks | openPMD_to_gdf.py:301-304 | The full chunks before len items cover at most len items, and fewer than m short of it |
| Streamer.MulMonotone | openPMD_to_gdf.py:303-304 | Later chunks start no earlier |
| Streamer.DivMonotone | openPMD_to_gdf.py:301 | A smaller size never has more full chunks |
| Streamer.ChunkOfIndex | openPMD_to_gdf.py:301-317 | Index x lies in chunk x/m, and the chunks before it are contiguous and cover (x/m)·m items |
| Streamer.CoordinateReaderRunsShort | openPMD_to_gdf.py:144-148 | A request past the end of the offsets gets fewer pairs than requested |
| Streamer.ShortReadRaises | openPMD_to_gdf.py:299-325 | Asked for more items than src holds, a reader faithful to src that returns too few items past its end writes the full chunks before index \|src\|, then packing that chunk raises |
| Streamer.FullChunksBeforeShort | openPMD_to_gdf.py:302-313 | The chunks before the one holding index \|src\| complete with the encoded transformed values they cover |
| Streamer.ShortChunkRaises | openPMD_to_gdf.py:312-313 | The chunk holding index \|src\| gets too few items, so packing it raises |
| Streamer.StreamStopsAt | openPMD_to_gdf.py:302-325 | A stream whose chunk k raises writes the chunks before k, then stops with that fault |
| Streamer.ShortOffsetRaises | openPMD_to_gdf.py:142-149 | With fewer offsets than positions, `zip` truncates, so the block writes the whole chunks before the offsets run out and then raises |
| Streamer.WriteArrayHeader | openPMD_to_gdf.py:328-335 | Appends exactly the name field, tag 2051 and 8·size; a name missing from the table raises before anything is written |
| Streamer.ArrayHeaderLayout | openPMD_to_gdf.py:328-335 | The header of an ASCII name of at most 16 characters is 24 bytes: the name field, 2051 and 8·size |
| Streamer.ArrayBlockLayout | openPMD_to_gdf.py:343-363 | With any m > 0, a block read faithfully is the 24-byte header whose length field announces exactly the 8·size payload bytes that follow, which decode to the transformed values in order |
| Streamer.ArrayBlockZeroCellSize | openPMD_to_gdf.py:380-384 | With chunk size 0, the header including its length is written, then the division raises before any value |
| Streamer.ArrayBlockTooLong | openPMD_to_gdf.py:381 | A length 8·size outside int32 raises after the name and tag, before any value |
| Streamer.BroadcastWritesCopies | openPMD_to_gdf.py:377-393 | A broadcast block holds exactly `size` copies of the value, whatever the chunk size |
| OpenPmd.ApplyDefaults | openPMD_to_gdf.py:18-26 | A missing output path becomes the input path minus `.h5`, plus `.gdf`; a missing chunk size becomes 1000000; a missing species becomes '' |
| OpenPmd.TableNamesFit | openPMD_to_gdf.py:89-98 | Every GDF name in the table is ASCII, has no NUL and at most 16 characters, and reads back from its name field |
| OpenPmd.WordChars | openPMD_to_gdf.py:69 | Removing `\W+` leaves only word characters and never lengthens the text |
| OpenPmd.DecodeName | openPMD_to_gdf.py:65-70 | `decode_name` yields only word characters and never more characters than bytes |
| OpenPmd.WordCharsOfWord | openPMD_to_gdf.py:69 | Text made only of word characters is left as it is |
| OpenPmd.DecodeNameOfWord | openPMD_to_gdf.py:65-70 | A name of word characters survives encoding and `decode_name` |
| OpenPmd.ParticlesName | openPMD_to_gdf.py:73-82 | The decoded `particlesPath` attribute, or 'particles' when it is absent |
| OpenPmd.CheckItemExist | openPMD_to_gdf.py:227-234 | The scan returns true exactly when the record name is among the species' records |
| OpenPmd.GetCoordinatesSize | openPMD_to_gdf.py:196-202 | The particle count is the size of the last position axis, or 0 without position axes |
| OpenPmd.FieldSizes | openPMD_to_gdf.py:237-254 | [1.0] without meshes, else one spacing per dimension of the first mesh, each times its unit |
| OpenPmd.GetFieldSizes | openPMD_to_gdf.py:237-254 | The loop builds exactly the cell sizes |
| OpenPmd.MinFromIsLeast | openPMD_to_gdf.py:209 | The running minimum is one of the values and no value is less than it |
| OpenPmd.PyMinIsLeast | openPMD_to_gdf.py:209 | For a strict order, `min` raises exactly on an empty list, and otherwise returns an element no element is less than |
| OpenPmd.ScaledMinIsLeast | openPMD_to_gdf.py:209 | For a strict order, `min` of the scaled spacings is one of them, and no scaled spacing is less than it |
| OpenPmd.RMacro | openPMD_to_gdf.py:205-210 | The radius is absent exactly when there are no spacings. Otherwise, for a strict order, it is half of one scaled spacing, and no scaled spacing is less than that one |
| OpenPmd.WriteBlockHeader | openPMD_to_gdf.py:328-335 | Appends exactly the header of the array named by the table entry `vector + axis` |
| OpenPmd.WriteMomentumComponent | openPMD_to_gdf.py:343-349 | Appends exactly one momentum axis: its header, then its values times their unit |
| OpenPmd.WriteCoordinateComponent | openPMD_to_gdf.py:357-363 | Appends exactly one position axis: its header, then position and offset combined |
| OpenPmd.IterateMomentum | openPMD_to_gdf.py:338-349 | Appends exactly the momentum axes' blocks in record order, stopping at the first raise |
| OpenPmd.IterateCoords | openPMD_to_gdf.py:352-363 | Appends exactly the position axes' blocks in record order, stopping at the first raise |
| OpenPmd.CoordinateBlockLayout | openPMD_to_gdf.py:352-363 | With enough offsets, a position axis is the header, then position·unit + offset·unit for every particle in order |
| OpenPmd.CoordinateBlockShortOffset | openPMD_to_gdf.py:142-149 | With fewer offsets, a position axis writes the header and the whole chunks before the offsets run out, then raises |
| OpenPmd.WriteDoubleDatasetValues | openPMD_to_gdf.py:377-393 | Appends exactly the broadcast block: header, then `size` copies of the value in chunks |
| OpenPmd.WriteScalarDataset | openPMD_to_gdf.py:152-162 | Writes nothing without the record; otherwise appends exactly value·unit broadcast to `size` |
| OpenPmd.WriteWeight | openPMD_to_gdf.py:165-193 | Appends exactly the `nmacro` block; a missing weighting record raises after the header |
| OpenPmd.NMacroIsAscii | openPMD_to_gdf.py:167 | `nmacro` fits a name field |
| OpenPmd.WeightBlockLayout | openPMD_to_gdf.py:165-193 | The weights are written unchanged, all of them, in order, after the `nmacro` header, whatever the chunk size |
| OpenPmd.WriteParticlesType | openPMD_to_gdf.py:213-224 | Appends exactly momentum, position, mass, charge, weights and `rmacro`, in that order, stopping at the first raise |
| OpenPmd.SelectedMembers | openPMD_to_gdf.py:257-280 | A species is written exactly when it has momentum and position records and, given a filter, bears exactly that name |
| OpenPmd.FilterSelectsAtMostOne | openPMD_to_gdf.py:270-280 | With distinct species names, a filter writes at most one species, the one bearing the filter's name |
| OpenPmd.SpeciesLoopWritesSelected | openPMD_to_gdf.py:257-280 | The species loop writes the selected species, each as its `var` block and arrays, in iteration order |
| OpenPmd.WriteSpecies | openPMD_to_gdf.py:266-267 | Appends exactly the `var` ASCII block naming the species, then its arrays |
| OpenPmd.AllSpecies | openPMD_to_gdf.py:257-267 | Appends exactly the loop over every species with no filter |
| OpenPmd.OneTypeSpecies | openPMD_to_gdf.py:270-280 | Appends exactly the loop over every species with the name filter |
| OpenPmd.WriteData | openPMD_to_gdf.py:283-291 | Appends exactly the `time` scalar, then the species the filter selects |
| OpenPmd.WriteFile | openPMD_to_gdf.py:294-296 | Appends exactly every iteration's blocks in order, stopping at the first raise |
| OpenPmd.AddRequiredVersions | openPMD_to_gdf.py:469-474 | Appends exactly the three version pairs |
| OpenPmd.RequiredVersionsBytes | openPMD_to_gdf.py:472-474 | The version bytes are 1 1, 3 0, 0 0 |
| OpenPmd.AddDestName | openPMD_to_gdf.py:462-466 | Appends exactly the name field of 'empty' |
| OpenPmd.HdfFileToGdfFile | openPMD_to_gdf.py:39-49 | Appends exactly the root record, then every iteration |
| OpenPmd.RootRecordLayout | openPMD_to_gdf.py:39-48 | The root record is 48 bytes: magic id, time, creator and 'empty' name fields, 1 1 3 0 0 0, then '0' '0' |
| Hdf.HdfTableNamesFit | hdf_to_gdf.py:62-71 | Every GDF name in this converter's table fits a name field and reads back from it |
| Hdf.Copies | hdf_to_gdf.py:54-56 | n copies of a node |
| Hdf.GroupHitsCount | hdf_to_gdf.py:53-56 | A group is collected once for each of 'charge' and 'mass' its path contains, so up to twice |
| Hdf.Datasets | hdf_to_gdf.py:51-52 | Only datasets are collected |
| Hdf.DatasetsAreDatasets | hdf_to_gdf.py:51-52 | Filtering by the dataset test keeps only datasets |
| Hdf.DatasetsMembers | hdf_to_gdf.py:50-57 | A node is collected as a dataset exactly when the walk visits it and it is a dataset |
| Hdf.DatasetCollector.constructor | hdf_to_gdf.py:47-49 | A new collector holds no datasets and no groups |
| Hdf.DatasetCollector.Visit | hdf_to_gdf.py:50-57 | One call appends a dataset to `sets`, and a group to `grops_values` once per keyword in its path |
| Hdf.VisitItems | hdf_to_gdf.py:79 | The walk leaves `sets` holding exactly the visited datasets in order, and `grops_values` all the group hits |
| Hdf.DatasetNameOfPath | hdf_to_gdf.py:83-90 | A path `<prefix>particles/<species>/<dataset>` is keyed by the dataset's own name |
| Hdf.SlashAfterSpecies | hdf_to_gdf.py:87-89 | The first '/' after the species name is the one that ends it |
| Hdf.Get | hdf_to_gdf.py:95 | `d.get(k)` is None exactly when k is not a key, and otherwise the value stored under k |
| Hdf.Put | hdf_to_gdf.py:91 | `d[k] = v` keeps every key in its place; a new key goes last with its value |
| Hdf.PutGet | hdf_to_gdf.py:91 | After `d[k] = v`, looking up k gives v, and any other key gives what it gave before |
| Hdf.PutKeepsKeysDistinct | hdf_to_gdf.py:91 | Storing a value keeps the keys distinct |
| Hdf.ArrayNamesKeysDistinct | hdf_to_gdf.py:80-91 | The dictionary built by the first loop has every key once |
| Hdf.ArrayNamesMiss | hdf_to_gdf.py:83-91 | A key that no dataset path yields is not in the dictionary |
| Hdf.ArrayNamesHit | hdf_to_gdf.py:83-91 | A key that some dataset path yields is in the dictionary |
| Hdf.ArrayNamesHoldLast | hdf_to_gdf.py:90-91 | Under each key the dictionary holds the values of the last dataset that yields it |
| Hdf.CollectArrays | hdf_to_gdf.py:80-91 | The first loop builds exactly the dictionary of dataset names |
| Hdf.WriteDoubleDataset | hdf_to_gdf.py:118-125 | Appends exactly the name field, 2051, 8·size and the packed values |
| Hdf.DoubleDatasetLayout | hdf_to_gdf.py:118-125 | Written with its own length, the block is the 24-byte header, then payload bytes decoding back to the values |
| Hdf.WriteArrays | hdf_to_gdf.py:93-96 | Corrected (see "## Findings"): with the lookup resolved to the table, the second loop appends exactly one block per key the table knows, in dictionary order. As written it raises NameError, which is `ArraysAsWritten` |
| Hdf.WriteIteration | hdf_to_gdf.py:74-96 | Corrected (see "## Findings"): appends exactly the array blocks of the datasets under `particles`, named through the table. As written it raises NameError on the first such dataset, which is `IterationAsWritten` |
| Hdf.AsWrittenWritesNoArrays | hdf_to_gdf.py:95 | As written, any file holding a dataset under `particles` raises NameError before writing any array |
| Hdf.SingleDatasetNames | hdf_to_gdf.py:80-91 | A walk with one keyed dataset gives a dictionary holding just that array |
| Hdf.SingleDatasetExample | hdf_to_gdf.py:93-96 | A single known dataset raises as written; resolved to the table, it is written under its GDF name |
| Hdf.SingleEntryBlocks | hdf_to_gdf.py:93-96 | A one-entry dictionary with a known key writes that array's block |
| Hdf.AddTimeAttribute | hdf_to_gdf.py:144-151 | Appends the seconds as int32 when there is a date, and nothing at all otherwise |
| Hdf.AddNameAttribute | hdf_to_gdf.py:154-171 | Appends exactly the name field of the decoded attribute, or of 'empty' when it is absent |
| Hdf.NameAttributeNeverRaises | hdf_to_gdf.py:154-171 | Writing a decoded name never raises and gives at least 16 bytes; an absent attribute reads back as 'empty', and a short decoded name reads back as itself |
| Hdf.VersionFromParts | hdf_to_gdf.py:194-197 | Both bytes are written exactly when both parts are integers in [0, 256). Otherwise nothing is written, and ValueError is raised exactly when the major part is not an integer, or it fits a byte and the minor part is not an integer; struct.error otherwise |
| Hdf.AddVersions | hdf_to_gdf.py:180-202 | Corrected (see "## Findings"): appends exactly the version field of the attribute split at its '.', parsing and packing the major part before the minor part. As written the slices start one character early, which is `VersionAttributeAsWritten` |
| Hdf.DottedVersion | hdf_to_gdf.py:184-186 | The string "a.b" is ASCII and its first '.' follows the digits of a |
| Hdf.VersionAsWrittenRejectsDotted | hdf_to_gdf.py:190-195 | As written, every version "a.b" raises and writes nothing. The major part loses a's last digit and the minor part keeps the '.', so the error is ValueError when a < 2560 and struct.error from `pack('B')` of a / 10 >= 256 otherwise |
| Hdf.VersionRoundTrip | hdf_to_gdf.py:180-202 | Split at its '.', the version "a.b" writes the bytes a and b |
| Hdf.VersionWithoutDot | hdf_to_gdf.py:187-189 | A version without '.' is the major number with minor 0, as written and corrected alike |
| Hdf.AddRequiredVersionAttributes | hdf_to_gdf.py:174-177 | Appends exactly the three version attributes, in order |
| Hdf.GdfFileToHdfFile | hdf_to_gdf.py:24-31 | Corrected (see "## Findings"): appends exactly the root record, then the arrays, built from the corrected `AddVersions` and `WriteIteration` |
| Hdf.EmptyNameField | hdf_to_gdf.py:170-171 | The name field of 'empty' is 16 bytes and does not raise |
| Hdf.BareRootRecord | hdf_to_gdf.py:24-30 | With no root attribute the record is 44 bytes: magic id, no time, 'empty' twice, six zero bytes, then '0' '0' |
| Hdf.LastWhereIsLast | hdf_to_gdf.py:223-232 | The last argument that passes the test is the one chosen |
| Hdf.LastWhereNone | hdf_to_gdf.py:224-225 | With no passing argument, the path stays '' |
| Hdf.ArgKinds | hdf_to_gdf.py:227-229 | The two tests are exactly the suffix tests for `.gdf` and `.h5` |
| Hdf.FilesFromArgs | hdf_to_gdf.py:223-232 | The loop returns the last .gdf argument and the last .h5 argument, '' for either that is missing |
| Hdf.OutputPathAsWrittenDropsChar | hdf_to_gdf.py:239 | As written, `<base>.h5` is converted to `<base>` minus its last character, plus `.gdf` |
| Hdf.OutputPathReplacesExtension | hdf_to_gdf.py:235-246 | `<base>.h5` goes to `<base>.gdf`; a given .gdf path is kept; nothing is converted unless the .h5 file exists |
| Hdf.DestinationOfOneH5 | hdf_to_gdf.py:249-251 | A command line naming one existing `<base>.h5` and no .gdf converts to `<base>.gdf` |

## Left out

- Reading the input, which is given to the model as values:
  - openPMD series and HDF5 files (`openpmd_api`, `h5py`, `visititems`, record slicing, `get_attribute`, `shape`) are values: sequences of records, of nodes, and optional attribute bytes;
  - `series.flush()` does nothing observable in the model;
  - the HDF5 walk is the sequence of nodes it visits, and the walk's order is taken as given.
- `datetime.strptime` and `time.mktime` depend on the time zone. The creation time is an input that is either its seconds or unparseable.
- Floating-point arithmetic:
  - `*`, `+`, `/ 2.` and `<` are the parameters in `FloatOps`;
  - doubles are carried as their 64-bit patterns;
  - no IEEE property is proved;
  - `float(time)` is taken as already a double.
- The file system and the process:
  - `open`, `close`, `os.path.exists` (a predicate parameter) and `os.remove`;
  - `argparse`, `sys.argv` and the `__main__` blocks;
  - every `print` message.
- Unused helpers:
  - `RepresentsInt` is never called;
  - `add_datasets_values` is never called and calls the undefined `parse_group_name`;
  - the hdf_to_gdf.py copies of `write_string`, `write_ascii_name`, `Block_types`, `add_gdf_id` and `write_first_block` are the same code as the openPMD_to_gdf.py copies, so one model serves both.
- `write_iteration` reads `hdf_file.get('data')` but never uses it.
- `Collect_Datasets.grops_values` is collected, as `DatasetCollector.Visit` states, but nothing reads it.
- `grid_size`: `get_field_sizes` overwrites it with 1.0 before use, so the model takes no such parameter.
- `int()` accepts surrounding whitespace and digit-separating underscores. `Text.ParseInt` does not model them; it accepts an optional sign followed by ASCII digits.
- Streamer.WriteDatasetValues: the chunk size is a natural number. A negative `max_cell_size` is not modelled: it gives negative ranges and slices in Python.
- Streamer.WriteDatasetValues: the model uses floor division. The source uses `int(size / max_cell_size)`, which is true division followed by truncation; both agree whenever size is below 2^53.
- OpenPmd.ApplyDefaults: the command line passes `-max_cell` as a string, and the model takes the number it denotes. As written, a chunk size given on the command line reaches the division as a `str` and raises a TypeError.
- OpenPmd.HdfFileToGdfFile: the creator name is the series' `software` value as a string, with no decoding step.
- Bytes.EncodeDouble: `struct.pack('d')` follows the machine's byte order, taken here as little-endian, as on the machines GPT runs on. The same holds for `'i'`.

## Findings

| source | as written | input that shows it | evidently intended | confidence | as-written member | corrected member |
|---|---|---|---|---|---|---|
| hdf_to_gdf.py:191-192 | `major = v[0:idx-1]`, `minor = v[idx-1:len(v)-1]` | version "1.2": major is "" and minor is "1.", so `int('')` raises ValueError; every "a.b" raises, with struct.error once a >= 2560 | `major = v[:idx]`, `minor = v[idx+1:]` | high; not executed | Hdf.VersionAsWrittenRejectsDotted | Hdf.VersionRoundTrip |
| hdf_to_gdf.py:239 | `hdf_file[:-4] + '.gdf'` | "run.h5" is converted to "ru.gdf" | `hdf_file[:-3] + '.gdf'`, as openPMD_to_gdf.py:20 does | high; not executed | Hdf.OutputPathAsWrittenDropsChar | Hdf.OutputPathReplacesExtension |
| hdf_to_gdf.py:95-96 | `dict_datasets.get(key)`, a name not defined in the module | any file with a dataset `/data/0/particles/e/charge`: NameError before any array is written | `Name_of_arrays.dict_datasets.get(key)` | high; not executed | Hdf.AsWrittenWritesNoArrays | Hdf.SingleDatasetExample |
