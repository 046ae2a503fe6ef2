# rs-pcd in Dafny

A model of the core of `rs-pcd`, a Rust reader and writer for the PCD
(Point Cloud Data) file format. A PCD file is a text header of
`KEY value...` lines (VERSION, FIELDS, SIZE, TYPE, COUNT, WIDTH, HEIGHT,
VIEWPOINT, POINTS, DATA) followed by a body. The body is ASCII text (one
line per point), little-endian binary records (one record of
`total_size` bytes per point, array-of-structures), or `binary_compressed`
(one LZF-compressed frame whose payload stores each field's values
contiguously, structure-of-arrays). Points live in a column store,
`PointBlock`: one typed column per field, looked up by name.

The model follows the crate's modules:

| Dafny module | file | models |
|---|---|---|
| `Errors` | errors.dfy | the `PcdError` variants and `Result` |
| `Bytes`, `Elements` | bytes.dfy, elements.dfy | Rust's fixed-width integers, little-endian encoding of the eight element types |
| `Text` | text.dfy | `trim`, `split_whitespace`, integer `to_string`/`parse`, UTF-8 output and Latin-1 reading of header lines |
| `External` | external.dfy | float parsing/formatting and the `lzf` crate, as parameters |
| `Header` | header.dfy | `src/header/mod.rs`: `DataFormat`, `ValueType`, `PcdHeader` |
| `Parser` | parser.dfy | `src/header/parser.rs`: `parse_header` and its helpers |
| `Builder` | builder.dfy | `src/header/builder.rs`: `HeaderBuilder` |
| `Layout` | layout.dfy | `src/layout/mod.rs`: `PcdLayout::from_header`, `get_field` |
| `Storage` | storage.dfy | `src/storage/mod.rs`: `Column` and the `PointBlock` class |
| `Records` | records.dfy | what the binary decoders share: records, element positions, store updates |
| `BinaryDecoder` | decode_binary.dfy | `src/decoder/binary.rs` |
| `ParallelDecoder` | decode_binary_par.dfy | `src/decoder/binary_par.rs`, its parallel loop run in sequence |
| `CompressedDecoder` | decode_compressed.dfy | `src/decoder/compressed.rs` |
| `AsciiDecoder` | decode_ascii.dfy | `src/decoder/ascii.rs` |
| `Writer` | writer.dfy | `src/io/writer.rs`: the `PcdWriter` class over a byte sink |
| `Reader` | reader.dfy | `src/io/reader.rs`: `PcdReader`, `read_all`, `read_pcd_file` |
| `HeaderRoundTrip`, `RoundTrip` | header_roundtrip.dfy, roundtrip.dfy | the writer's output read back by the reader |

Where the Rust code loops and updates state, the model does too.
`PointBlock` and `PcdWriter` are classes. Their methods carry `modifies`
clauses, and each explicit Rust `for` or `while` loop is a Dafny loop with
invariants; iterator chains (`map`/`collect`, `sum`, `zip`) are recursive
functions or sequence comprehensions. Each method is
proved equal to a specification function, for example
`written == old(written) + BinaryOut(...).bytes`. The properties are then
proved about that function, so lemmas can use them. Pure code (header
types, the layout resolver, the text helpers) is written as functions and
lemmas.

Values are modelled as follows:

- Integers are unbounded. Each Rust width is a subset type:
  - `byte`, `u16`, `u32` and `usize` (64-bit);
  - `i8`, `i16` and `i32`.
- A float is its IEEE bit pattern (`F32Bits`, `F64Bits`). Float text is
  converted by functions passed in as parameters (`FloatText`).
- LZF compression and decompression are functions passed in as well
  (`Lzf`). The round trip that the crate relies on is stated as
  `LzfRoundTrip`.
- A file is a `seq<byte>`. The reader is given the whole file, and the
  writer appends to `written`.

The main results:

- **Header round trip.** `HeaderRoundTrip.HeaderParsesBack`: the ten
  lines `write_header` emits parse back to the same header, and the body
  starts right after the DATA line.
- **Binary round trip.** `RoundTrip.BinaryFileRoundTrip`: a binary file
  the writer produces, opened and read by `read_pcd_file`, gives back
  every element it was written from.
- **Decoders understood.** Each decoder is proved equal to a
  specification of the whole store it leaves, with every error case.
  `BinaryDecoder.DecodedValues`, `CompressedDecoder.StoredValues` and
  `AsciiDecoder.DecodedValues` give each element by name from the input
  bytes or tokens.
- **Parallel decoder.** `Reader.ParallelMatchesStream`: on a mapped
  binary file whose body holds every record and whose field names are
  distinct, the parallel decoder yields exactly the columns the
  sequential one does; on a short body both fail.
- **Compressed frame.** `RoundTrip.FramedBuffer`: the LZF frame the
  writer emits is accepted by the compressed decoder.

## Model

| member | source | states |
|---|---|---|
| `Header.FormatFromStr` | src/header/mod.rs:18-25 | an unknown DATA token is rejected with UnsupportedDataFormat carrying that token |
| `Header.FormatTokenRoundTrip` | src/header/mod.rs:18-25 | "ascii", "binary" and "binary_compressed" map to the three formats and nothing else does: parsing a token yields a format exactly when the token is that format's |
| `Header.FormatToken` | src/io/writer.rs:75-79 | the token the DATA line is written with parses back to the same format |
| `Header.Size` | src/header/mod.rs:41-48 | U8/I8 take 1 byte, U16/I16 2, U32/I32/F32 4 and F64 8, each as an if-and-only-if |
| `Header.SizeTimesCount` | src/header/mod.rs:77-83 | `zip` of SIZE and COUNT: as long as the shorter list, entry i is size times count |
| `Header.PointStepsAgree` | src/header/mod.rs:70-83 | with every COUNT 1, `point_step` (`Header.PointStep`, the sum of SIZE) and `total_point_step` (`Header.TotalPointStep`, the sum of SIZE times COUNT) agree |
| `Header.TotalPointStepAtLeastPointStep` | src/header/mod.rs:70-83 | with every COUNT at least 1, the record stride is at least the plain sum of sizes |
| `Bytes.LeEncode` | src/io/writer.rs:132-166 | n little-endian bytes of a value below 256^n decode back to it |
| `Bytes.LeEncodeOfDecode` | src/decoder/binary.rs:82-124 | every byte string is the little-endian encoding of the value it decodes to |
| `Bytes.LeDecodeBound` | src/decoder/binary.rs:82-124 | the little-endian read (`Bytes.LeDecode`) of n bytes is a value below 256^n |
| `Bytes.SignedUnsigned` | src/decoder/binary.rs:75-81 | two's complement: a signed value in range goes to an unsigned representative and back unchanged |
| `Elements.DecodeElem` | src/decoder/binary.rs:71-124 | `read_*::<LittleEndian>` of one element yields a value of the element type's range |
| `Elements.EncodeElem` | src/io/writer.rs:103-201 | `write_*::<LittleEndian>` of one element yields exactly its type's size in bytes |
| `Elements.DecodeEncode` | src/io/writer.rs:103-201 | reading back what was written gives the value, for every element type |
| `Elements.EncodeDecode` | src/decoder/binary.rs:71-124 | writing what was read gives the bytes back |
| `Elements.ByteElements` | src/decoder/binary.rs:71-81 | a U8 element is its byte; an I8 element is the byte read as two's complement |
| `Elements.InRangeBounds` | src/storage/mod.rs:21-31 | the value range of each Rust element type |
| `Elements.ModulusIsPow` | src/header/mod.rs:41-48 | the bit patterns of a type are 256 to the power of its size |
| `Text.TrimStart` | src/header/parser.rs:37-45 | a suffix of the input, all whitespace removed before it, not starting with whitespace |
| `Text.TrimEnd` | src/header/parser.rs:37-45 | a prefix of the input, all whitespace removed after it, not ending with whitespace |
| `Text.Trim` | src/header/parser.rs:37-45 | empty exactly for all-whitespace input; otherwise it starts and ends with non-whitespace |
| `Text.SplitWhitespace` | src/header/parser.rs:46-47 | every token is nonempty and holds no whitespace |
| `Text.SplitJoin` | src/io/writer.rs:44-82 | splitting tokens joined by spaces, plus trailing whitespace, gives the tokens back |
| `Text.SplitTrailingWhitespace` | src/decoder/ascii.rs:68-69 | trailing whitespace (the line's newline) adds no token |
| `Text.SplitTrimmed` | src/header/parser.rs:37-47 | trimming a line that starts with a visible character does not change its tokens |
| `Text.TokenLen` | src/header/parser.rs:46-47 | the leading run of non-whitespace, stopped by whitespace or the end |
| `Text.SplitAllWhitespace` | src/header/parser.rs:37-45 | an all-whitespace line has no tokens |
| `Text.NatToDecimal` | src/io/writer.rs:44-82 | `to_string` of an unsigned integer is one or more decimal digits |
| `Text.NatToDecimalValue` | src/io/writer.rs:44-82 | those digits spell the number, with no leading zero |
| `Text.IntToDecimal` | src/io/writer.rs:253-312 | `to_string` of a signed integer is one nonempty token |
| `Text.ParseInteger` | src/decoder/ascii.rs:88-123 | `str::parse` of an integer type: a value in the type's range, none for the empty string or a '-' on an unsigned type |
| `Text.ParseIntegerOfDecimal` | src/decoder/ascii.rs:88-123 | every value of the type, formatted with `to_string`, parses back to itself |
| `Text.Latin1` | src/header/parser.rs:26-35 | one character per byte, with the byte's value |
| `Text.CharUtf8` | src/io/writer.rs:44-82 | one to four bytes, the character itself when below 0x80 |
| `Text.Latin1OfUtf8` | src/io/writer.rs:44-82 | ASCII text written as UTF-8 and read one byte per character comes back unchanged |
| `Text.Utf8Append` | src/io/writer.rs:44-82 | the UTF-8 of a concatenation is the concatenation of the UTF-8s |
| `Parser.ParseUsize` | src/header/parser.rs:54-56 | `parse::<usize>`: defined exactly when the integer parse in the 64-bit range succeeds, with its value |
| `Parser.ParseU32` | src/header/parser.rs:75-80 | `parse::<u32>`: defined exactly when the integer parse in the 32-bit range succeeds, with its value |
| `Parser.TypeToken` | src/header/parser.rs:57-71 | a TYPE token is accepted exactly when it is one character, which it yields |
| `Parser.ParseAll` | src/header/parser.rs:120-130 | ok exactly when every token parses, with the values in order; an error is InvalidHeader on that line |
| `Parser.ParseAllFirstError` | src/header/parser.rs:120-130 | the error names the first token that does not parse |
| `Parser.ParseVec` | src/header/parser.rs:120-130 | `parse_vec`: ok exactly when every token parses, values in order, else InvalidHeader on that line |
| `Parser.ParseSingle` | src/header/parser.rs:132-143 | "Missing value for" without a token, "Invalid token for" a token that does not parse, else its value |
| `Parser.ValidateHeader` | src/header/parser.rs:145-190 | ok exactly when SIZE, TYPE and COUNT have one entry per field and COUNT is nonempty; errors are InvalidHeader on the DATA line |
| `Parser.FillCounts` | src/header/parser.rs:103-105 | an empty COUNT becomes one 1 per field and nothing else changes; a given COUNT is kept |
| `Parser.FinishHeader` | src/header/parser.rs:95-111 | without a token "Missing DATA format"; an unknown token UnsupportedDataFormat with that token; otherwise the header with that format and its counts filled is returned exactly when it validates, else the validation error; an accepted header is consistent |
| `Parser.ApplyKey` | src/header/parser.rs:46-115 | only DATA ends the header successfully, and then with a consistent header |
| `Parser.ApplyLine` | src/header/parser.rs:37-115 | a header line that ends the header successfully leaves it consistent |
| `Parser.LineEnd` | src/header/parser.rs:26-35 | `read_line`: the next line runs to just past the first newline, or to the end of input |
| `Parser.ParseLoop` | src/header/parser.rs:26-118 | the body starts after the position parsing began, within the input |
| `Parser.ParseLoopConsistent` | src/header/parser.rs:26-118 | every header the loop returns is consistent |
| `Parser.HeaderStep` | src/header/parser.rs:37-115 | the parser's line step ends only with consistent headers |
| `Parser.ParseFrom` | src/header/parser.rs:19-118 | a parsed header is consistent and the body start lies within the input |
| `Parser.ParseHeader` | src/header/parser.rs:19-118 | the line loop equals its specification; a header it returns is consistent and its body start is inside the input |
| `Parser.EofBeforeData` | src/header/parser.rs:26-35 | input that ends before a stopping line fails with "Unexpected EOF before DATA section", numbered as the last line read: the count of lines read so far, 0 when there were none |
| `Parser.HeaderEofBeforeData` | src/header/parser.rs:26-35 | the same for `parse_header` from the start of the file |
| `Parser.SkippedLineIgnored` | src/header/parser.rs:37-45 | blank and `#` comment lines leave the header unchanged |
| `Parser.SkippedLineCounted` | src/header/parser.rs:37-45 | a skipped line still advances the line number |
| `Parser.UnknownKeyIgnored` | src/header/parser.rs:112-115 | a key not among the ten leaves the header unchanged |
| `Parser.RepeatedKeyOverwrites` | src/header/parser.rs:46-94 | a key given twice has the effect of the second line only |
| `Parser.ViewpointNeedsSeven` | src/header/parser.rs:81-91 | a VIEWPOINT of parsable numbers is accepted exactly when there are seven; otherwise "VIEWPOINT expected 7 values, got n" |
| `Parser.ViewpointLine` | src/header/parser.rs:81-91 | the whole VIEWPOINT arm: parse error, wrong count, or the new viewpoint |
| `Parser.TypeTokenLength` | src/header/parser.rs:57-71 | the first TYPE token not of length 1 stops with "Invalid TYPE: " and that token |
| `Parser.NoFieldsRejected` | src/header/parser.rs:145-190 | a header without fields never passes the DATA line |
| `Parser.LoopIgnoresBody` | src/header/parser.rs:26-118 | the parse reads nothing past the DATA line: changing the bytes after it changes nothing |
| `Parser.HeaderIgnoresBody` | src/header/parser.rs:19-118 | `parse_header` on a header followed by any body is `parse_header` on the header alone |
| `Parser.LineEndOnPrefix` | src/header/parser.rs:26-35 | a line ends at the same place in any input sharing its bytes |
| `Builder.AddField` | src/header/builder.rs:73-76 | appends the pair to the builder's fields and leaves width, height, data format, viewpoint and version as they were |
| `Builder.TypeChar` | src/header/builder.rs:165-171 | the letter is I, U or F, and the layout resolver maps it with the type's size back to the type |
| `Builder.BuiltHeader` | src/header/builder.rs:120-161 | "Width must be set", then "At least one field must be added", else exactly one name, size, letter and count 1 per field, points = width * height, the rest passed through |
| `Builder.Build` | src/header/builder.rs:120-161 | the loop pushing one entry per field equals its specification |
| `Builder.BuiltLayout` | src/header/builder.rs:120-161 | a built header always resolves to a layout, field i named and typed as added, one element of its type's size |
| `Builder.MinimalBuild` | src/header/builder.rs:58-67 | one field and a width suffice; the defaults are height 1, Binary, version "0.7" and the identity viewpoint |
| `Layout.TypeFromHeader` | src/layout/mod.rs:58-77 | exactly the eight (TYPE, SIZE) pairs resolve, to a type of that size and signedness; otherwise UnsupportedType naming the letter, and for I, U and F also the size |
| `Layout.ResolveFromOkIff` | src/layout/mod.rs:40-100 | the field loop succeeds exactly when every remaining field has a TYPE, a SIZE and a known pair |
| `Layout.ResolveFromOk` | src/layout/mod.rs:40-108 | a successful loop yields the layout of the header |
| `Layout.ResolveFromErr` | src/layout/mod.rs:40-77 | a failing loop reports the first unresolvable field's error |
| `Layout.ResolveLayoutCorrect` | src/layout/mod.rs:35-109 | `from_header` (`Layout.ResolveLayout`) succeeds exactly when every field resolves, with the header's layout; otherwise the first unresolvable field's error |
| `Layout.LayoutOfWellFormed` | src/layout/mod.rs:91-108 | a resolved layout has running offsets, size = element size times count, total = sum of sizes |
| `Layout.FromHeader` | src/layout/mod.rs:35-109 | the loop equals its specification, with the if-and-only-if, the layout and the first-error case |
| `Layout.FieldsDisjoint` | src/layout/mod.rs:102 | field byte ranges follow each other in declaration order without overlap |
| `Layout.FieldWithinRecord` | src/layout/mod.rs:105-108 | every field lies within the record |
| `Layout.FirstOffsetZero` | src/layout/mod.rs:102 | the first field starts the record |
| `Layout.TotalSizeIsTotalPointStep` | src/header/mod.rs:77-83 | the layout's total size is the header's `total_point_step` |
| `Layout.WellFormedFieldsFit` | src/layout/mod.rs:91-108 | each element of each field ends inside the record |
| `Layout.SkipIsProduct` | src/layout/mod.rs:102-108 | i steps of the same width end at i times the width |
| `Layout.SumSizesMonotone` | src/layout/mod.rs:102 | offsets do not decrease along the fields |
| `Layout.FindField` | src/layout/mod.rs:111-113 | the first index holding the name, or none exactly when no field has it |
| `Layout.GetField` | src/layout/mod.rs:111-113 | `get_field`: the first field with that name, or none exactly when absent |
| `Storage.ColumnExtensional` | src/storage/mod.rs:21-31 | a column is determined by its type and its elements |
| `Storage.NewColumn` | src/storage/mod.rs:34-45 | `Column::new`: n zeros of the type, well typed |
| `Storage.Resized` | src/storage/mod.rs:47-58 | `resize(m)`: length m, same type, the old elements kept below the old length, zeros after |
| `Storage.ResizedLaws` | src/storage/mod.rs:47-58 | resizing to the current length is the identity; resizing twice is resizing once when it does not shrink first |
| `Storage.SetAt` | src/storage/mod.rs:21-31 | storing one element changes that element and nothing else, keeping the column well typed |
| `Storage.AsU8` | src/storage/mod.rs:79-92 | `as_u8`: some exactly for a U8 column, its elements |
| `Storage.AsU16` | src/storage/mod.rs:79-202 | `as_u16`: some exactly for a U16 column, its elements |
| `Storage.AsU32` | src/storage/mod.rs:79-202 | `as_u32`: some exactly for a U32 column, its elements |
| `Storage.AsI8` | src/storage/mod.rs:79-202 | `as_i8`: some exactly for an I8 column, its elements |
| `Storage.AsI16` | src/storage/mod.rs:79-202 | `as_i16`: some exactly for an I16 column, its elements |
| `Storage.AsI32` | src/storage/mod.rs:79-202 | `as_i32`: some exactly for an I32 column, its elements |
| `Storage.AsF32` | src/storage/mod.rs:79-202 | `as_f32`: some exactly for an F32 column, its elements |
| `Storage.AsF64` | src/storage/mod.rs:79-202 | `as_f64`: some exactly for an F64 column, its elements |
| `Storage.AccessorsExclusive` | src/storage/mod.rs:79-202 | exactly one typed accessor succeeds on any column |
| `Storage.IndexMap` | src/storage/mod.rs:249-266 | the name index holds exactly the schema's names, each at a column position |
| `Storage.IndexMapLast` | src/storage/mod.rs:257 | a repeated name maps to its last position in the schema, as `HashMap::insert` overwrites |
| `Storage.IndexMapInjective` | src/storage/mod.rs:249-266 | different names have different indices |
| `Storage.PointBlock.constructor` | src/storage/mod.rs:249-266 | one zero column of the given type and capacity per pair, the schema in order, the index built from it |
| `Storage.PointBlock.Resize` | src/storage/mod.rs:268-273 | every column resized, `len` set, schema and index unchanged |
| `Storage.PointBlock.GetColumnIndex` | src/storage/mod.rs:308-310 | some exactly for a schema name, its last position |
| `Storage.PointBlock.GetColumn` | src/storage/mod.rs:278-280 | some exactly for a schema name, the column at its index |
| `Storage.PointBlock.GetColumnByIndex` | src/storage/mod.rs:295-297 | some exactly for an index in range, a well-typed column; at the last position of a name it is what `get_column` returns for that name |
| `Storage.PointBlock.GetColumnsMut` | src/storage/mod.rs:327-357 | none exactly when a name repeats or is missing; otherwise each name's index, in request order, pairwise distinct |
| `Storage.PointBlock.Xyz` | src/storage/mod.rs:377-382 | some exactly when x, y and z are F32 columns, their elements |
| `Storage.PointBlock.Xyzi` | src/storage/mod.rs:387-393 | `xyz` and an F32 intensity |
| `Storage.PointBlock.Xyzrgb` | src/storage/mod.rs:398-404 | `xyz` and a U32 rgb |
| `Storage.PointBlock.Xyzir` | src/storage/mod.rs:411-418 | `xyzi` and a U16 ring |
| `Storage.PointBlock.Xyzirt` | src/storage/mod.rs:426-434 | `xyzir` and an F64 timestamp |
| `Storage.PointBlock.XyzirtId` | src/storage/mod.rs:443-452 | `xyzirt` and a U32 id |
| `Records.DestinationCovers` | src/decoder/binary.rs:63-70 | every element below R times count is written, as element j mod count of record j div count, one of the first R |
| `Records.RecordsFitAll` | src/decoder/binary.rs:63-70 | all n records fit n rows exactly when every field has at most one element per point or no points are read |
| `Records.CountsFitRecords` | src/decoder/binary.rs:63-70 | when all n records fit, so do the first R <= n |
| `Records.DestinationInjective` | src/decoder/binary_par.rs:77-153 | distinct (point, element) pairs write distinct elements, so the parallel writes never collide |
| `Records.CountsFitExact` | src/decoder/binary.rs:63-70 | with two or more elements per point, the last point's last element lies past n |
| `Records.ElemInRecord` | src/decoder/binary.rs:63-70 | element k of field f lies within the record |
| `Records.RecordElem` | src/decoder/binary.rs:63-124 | one element read from a record is in its type's range |
| `Records.HoldsRecordsIff` | src/decoder/binary.rs:60-62 | the input holds R records exactly when R times the record size fits |
| `Records.Chunks` | src/decoder/binary_par.rs:63-65 | `par_chunks_exact`: R records of the record size |
| `Records.ChunkAt` | src/decoder/binary_par.rs:63-65 | record i is the bytes at i times the record size |
| `Records.RowsRead` | src/decoder/binary.rs:60-62 | the points `read_exact` reads before running out: at most n, all of them held in the input |
| `Records.RowsReadAll` | src/decoder/binary.rs:60-62 | all n points are read exactly when the input holds n records |
| `Records.RowsReadMaximal` | src/decoder/binary.rs:60-62 | a short read stops at the last whole record |
| `Records.RowsReadBytes` | src/decoder/binary.rs:60-62 | the reads stay in the input, and fall short exactly when the input is below n records |
| `Records.RecordElemAt` | src/decoder/binary.rs:63-124 | an element of a record inside the stream is the stream's bytes at record start + field offset + element offset |
| `Records.StreamElem` | src/decoder/binary_par.rs:63-153 | the same for record i of the chunked stream |
| `Records.WriteElem` | src/decoder/binary.rs:63-124 | storing changes one element of one column only |
| `Records.FieldElem` | src/decoder/binary.rs:71-124 | the value stored for element k of field f of a record is in the field type's range |
| `Records.TargetDone` | src/decoder/binary.rs:63-124 | storing one field of one point keeps every column's type and length |
| `Records.RowDone` | src/decoder/binary.rs:63-70 | the field loop of one point keeps every column's type and length |
| `Records.RowsDone` | src/decoder/binary.rs:60-124 | the point loop keeps every column's type and length |
| `Records.LastOwner` | src/decoder/binary.rs:63-70 | the last field before t that writes slot s, or none (-1); a field it names writes s |
| `Records.LastOwnerNone` | src/decoder/binary.rs:63-70 | a slot no field before t writes has no last writer |
| `Records.OwnerDistinct` | src/decoder/binary.rs:63-70 | with distinct slots, each field is the last writer of its own slot |
| `Records.RowDoneOwned` | src/decoder/binary.rs:63-70 | with distinct slots, the field loop of one point leaves each slot as its last writer stored it, and the others untouched |
| `Records.RowDoneSlot` | src/decoder/binary.rs:63-70 | after the field loop, target u's slot is its column with u's field of the point stored |
| `Records.RowDoneUnowned` | src/decoder/binary.rs:63-70 | a slot no field writes is unchanged by the field loop |
| `Records.RowsDoneElem` | src/decoder/binary.rs:60-124 | after R points, element i*count+k of a field's column holds element k of that field in record i, for every i < R |
| `Records.RowsDoneBeyond` | src/decoder/binary.rs:60-124 | after R points, the elements of a field's column from R*count on keep their old values |
| `Records.RowsDoneUnowned` | src/decoder/binary.rs:60-124 | a column no field writes keeps its value through every point |
| `Records.RowsDoneTyped` | src/decoder/binary.rs:60-124 | decoding keeps every column well typed |
| `Records.TargetsRoomResized` | src/decoder/binary.rs:50-55 | after the resize to n, every field has room in its column for the records that fit n rows |
| `Records.TargetsTypedResized` | src/decoder/binary.rs:50-55 | after the resize, each field's column has the field's type when the types agree |
| `Records.TargetsDistinct` | src/decoder/binary.rs:54-56 | distinct field names write distinct columns |
| `BinaryDecoder.Decoded` | src/decoder/binary.rs:37-129 | the decoded store has the old column types and n elements per column |
| `BinaryDecoder.StoreField` | src/decoder/binary.rs:63-124 | one field of one point equals its specification |
| `BinaryDecoder.StoreRecord` | src/decoder/binary.rs:63-70 | the field loop of one point equals its specification |
| `BinaryDecoder.ReadElement` | src/decoder/binary.rs:71-124 | one element read from the field's bytes: the U8 copy, the I8 two's complement, or the LE decode, equal to its specification |
| `BinaryDecoder.ColumnsPresent` | src/decoder/binary.rs:42-49 | true exactly when every layout name has a column |
| `BinaryDecoder.ReadRecords` | src/decoder/binary.rs:58-127 | the point loop reports success exactly when all n records were there, and leaves the store after the records read |
| `BinaryDecoder.Decode` | src/decoder/binary.rs:37-129 | LayoutMismatch(0, 0) with the store untouched when a name is missing; the borrow error after the resize when a name repeats; otherwise n elements per column, UnexpectedEof exactly on a short input, and the decoded columns |
| `BinaryDecoder.RowsReadCovers` | src/decoder/binary.rs:60-62 | point j is read exactly when the input holds j + 1 records |
| `BinaryDecoder.ChunkElem` | src/decoder/binary.rs:60-124 | element k of field f of the i-th record cut from the stream is the decode of the stream's bytes at i record sizes plus the field offset plus k element sizes |
| `BinaryDecoder.DecodedRecord` | src/decoder/binary.rs:60-124 | with distinct names, the decoded column holds at i*count+k element k of field f of record i |
| `BinaryDecoder.DecodedElem` | src/decoder/binary.rs:60-124 | the same element is the LE decode of its bytes in the stream, which lie inside the input |
| `BinaryDecoder.DecodedSingle` | src/decoder/binary.rs:60-124 | for a one-element field, element j of its column is the decode of the field's bytes of record j |
| `BinaryDecoder.DecodedBeyond` | src/decoder/binary.rs:50-62 | past the records read, a field's column keeps what the resize left there |
| `BinaryDecoder.DecodedValues` | src/decoder/binary.rs:37-129 | each element of each named column: the decode of its bytes when read, else the old value below the old length, else 0 |
| `BinaryDecoder.DecodedUntouched` | src/decoder/binary.rs:50 | a column no field names comes out as the resize left it |
| `ParallelDecoder.PresentTargets` | src/decoder/binary_par.rs:50-58 | only fields whose column exists are collected, each with its column |
| `ParallelDecoder.PresentTargetsAll` | src/decoder/binary_par.rs:50-58 | when every column exists, all fields are collected in order |
| `ParallelDecoder.PresentTargetsRoom` | src/decoder/binary_par.rs:47-58 | every collected field has room in the resized store for the records that fit n rows |
| `ParallelDecoder.PresentTargetsTyped` | src/decoder/binary_par.rs:47-58 | every collected field's column has the field's type when the types agree |
| `ParallelDecoder.ParDecoded` | src/decoder/binary_par.rs:37-159 | the store shape is that of the resized store |
| `ParallelDecoder.CollectTargets` | src/decoder/binary_par.rs:50-58 | the loop collecting one column per field equals its specification |
| `ParallelDecoder.ReadChunks` | src/decoder/binary_par.rs:63-155 | the chunk loop equals its specification over the n records |
| `ParallelDecoder.DecodePar` | src/decoder/binary_par.rs:37-159 | BufferTooSmall(total, got) with the store untouched on short data; otherwise ok, n elements, the decoded columns |
| `ParallelDecoder.ParMatchesSequential` | src/decoder/binary_par.rs:37-159 | with every field present and a buffer holding all n records, the parallel decoder's store equals the store specification the sequential decoder reaches when the names are distinct (`Reader.ParallelMatchesStream` compares the two decoders themselves) |
| `CompressedDecoder.FrameBytes` | src/decoder/compressed.rs:39-43 | 8 header bytes followed by the payload |
| `CompressedDecoder.ReadFrame` | src/decoder/compressed.rs:39-43 | fails only with UnexpectedEof; a frame read is a prefix of the input |
| `CompressedDecoder.ReadFrameBytes` | src/decoder/compressed.rs:39-43 | the bytes of a frame, whatever follows, read back as that frame |
| `CompressedDecoder.Inflate` | src/decoder/compressed.rs:46-55 | ok exactly when decompression yields the stated length, with those bytes; otherwise a Decompression error |
| `CompressedDecoder.InflateRoundTrip` | src/decoder/compressed.rs:46-55 | what LZF compressed inflates back when framed with its length |
| `CompressedDecoder.Buffer` | src/decoder/compressed.rs:38-67 | the buffer is obtained exactly when the frame reads, inflates and has size `total_size * n`, and is that long |
| `CompressedDecoder.BlockElem` | src/decoder/compressed.rs:99-183 | one element of a block is in its type's range |
| `CompressedDecoder.Block` | src/decoder/compressed.rs:89-96 | field f's block is `element_size * count * points` bytes |
| `CompressedDecoder.BlocksStored` | src/decoder/compressed.rs:79-186 | the block loop keeps every column's type and length |
| `CompressedDecoder.Filled` | src/decoder/compressed.rs:99-183 | a filled column keeps its type and length |
| `CompressedDecoder.FilledAt` | src/decoder/compressed.rs:99-183 | element j comes from the block below m and is unchanged from m on |
| `CompressedDecoder.FilledTyped` | src/decoder/compressed.rs:99-183 | filling keeps a column well typed |
| `CompressedDecoder.BlocksStoredAt` | src/decoder/compressed.rs:79-186 | after the block loop an element of a field's column is its block element |
| `CompressedDecoder.BlocksStoredUntouched` | src/decoder/compressed.rs:79-186 | a column no earlier field names is unchanged |
| `CompressedDecoder.BlocksStoredKept` | src/decoder/compressed.rs:79-186 | elements past every block written to the column are unchanged |
| `CompressedDecoder.BlocksStoredTyped` | src/decoder/compressed.rs:79-186 | the block loop keeps every column well typed |
| `CompressedDecoder.FirstMissing` | src/decoder/compressed.rs:70-75 | the first field without a column, all before it present |
| `CompressedDecoder.Stored` | src/decoder/compressed.rs:79-186 | the block loop, which stops at the first field without a column, keeps the store's shape for any input; it reads only the fields before that one |
| `CompressedDecoder.StorableAt` | src/decoder/compressed.rs:81-184 | a field the loop reaches has a column of its own type, and its block fits that column |
| `CompressedDecoder.StorableAllPresent` | src/decoder/compressed.rs:70-100 | with every field present, the loop's demands are exactly that every block fits its column and the types agree |
| `CompressedDecoder.StoredTyped` | src/decoder/compressed.rs:79-186 | over a buffer that holds every block, the loop leaves each column well typed |
| `CompressedDecoder.StoredResult` | src/decoder/compressed.rs:70-87 | ok exactly when every field has a column; otherwise "Missing column " and a missing name |
| `CompressedDecoder.StoppedAt` | src/decoder/compressed.rs:70-87 | when the field loop stops at the first field without a column, the store holds the blocks before it and the result names that field; at the end, ok |
| `CompressedDecoder.StoredValues` | src/decoder/compressed.rs:79-186 | a field's column holds its block's elements below count * n and keeps the rest |
| `CompressedDecoder.StoredUntouched` | src/decoder/compressed.rs:79-186 | a column no field names is unchanged |
| `CompressedDecoder.CopyBytes` | src/decoder/compressed.rs:99-102 | `copy_from_slice` of a U8 block fills the whole column |
| `CompressedDecoder.StoreSignedBytes` | src/decoder/compressed.rs:161-167 | the I8 loop fills one element per byte |
| `CompressedDecoder.StoreChunks` | src/decoder/compressed.rs:131-183 | the `chunks_exact` loops fill m elements of their size |
| `CompressedDecoder.ChunkNext` | src/decoder/compressed.rs:131-183 | chunk i of a block is element i: the element size bytes at i element sizes, decoded |
| `CompressedDecoder.ChunksEnd` | src/decoder/compressed.rs:131-183 | `chunks_exact` yields exactly m chunks of a block of m elements |
| `CompressedDecoder.StoreBlock` | src/decoder/compressed.rs:97-184 | the type match equals filling the column from the block |
| `CompressedDecoder.StoreField` | src/decoder/compressed.rs:80-96 | one pass of the field loop equals its specification and advances the offset by the block length |
| `CompressedDecoder.StoreBlocks` | src/decoder/compressed.rs:79-186 | the field loop equals its specification, result and columns; it asks only that the fields before the first missing column fit and agree in type |
| `CompressedDecoder.Decode` | src/decoder/compressed.rs:38-188 | frame, decompression and size errors leave the store untouched, and nothing is asked of the layout for them; once the buffer is obtained, n elements, the missing-column result and the stored columns |
| `CompressedDecoder.Fill` | src/decoder/compressed.rs:70-186 | precheck, resize and the field loop over an inflated buffer equal their specification, and every column stays well typed |
| `CompressedDecoder.BlockStartIsSum` | src/decoder/compressed.rs:79-96 | field f's block starts at n times the sizes of the fields before it |
| `CompressedDecoder.BlocksCoverFromLayout` | src/decoder/compressed.rs:49-96 | under the resolver's layout the blocks cover the `total_size * n` buffer exactly |
| `AsciiDecoder.ParseToken` | src/decoder/ascii.rs:87-135 | a token parses to a value of the type's range; an error is exactly "Invalid <type>: <token>" |
| `AsciiDecoder.ParseTokenOfDecimal` | src/decoder/ascii.rs:88-123 | the `to_string` of an integer element parses back to it |
| `AsciiDecoder.CellTypes` | src/decoder/ascii.rs:71-85 | one cell type per token of the line's fields |
| `AsciiDecoder.RowIndex` | src/decoder/ascii.rs:85 | `i * count + k` for k below count lies before point i + 1's elements |
| `AsciiDecoder.Put` | src/decoder/ascii.rs:87-135 | storing a parsed value keeps every column's type and length |
| `AsciiDecoder.NextElem` | src/decoder/ascii.rs:76-135 | one element fails only with InvalidDataFormat |
| `AsciiDecoder.NextElemOk` | src/decoder/ascii.rs:76-135 | one element succeeds exactly when its token is present and parses |
| `AsciiDecoder.ElemsRead` | src/decoder/ascii.rs:71-135 | the element loop fails only with InvalidDataFormat |
| `AsciiDecoder.FieldsRead` | src/decoder/ascii.rs:71-135 | the field loop fails only with InvalidDataFormat |
| `AsciiDecoder.PointsRead` | src/decoder/ascii.rs:58-138 | the point loop keeps the store's shape |
| `AsciiDecoder.PointsReadErrors` | src/decoder/ascii.rs:58-138 | the point loop fails only with UnexpectedEof or a token error |
| `AsciiDecoder.Decoded` | src/decoder/ascii.rs:36-141 | LayoutMismatch(0, 0) exactly when a column is missing; "Failed to mutate columns" exactly when a name repeats; both leave the resized store |
| `AsciiDecoder.ReadElems` | src/decoder/ascii.rs:71-135 | the element loop equals its specification and advances the token index by count |
| `AsciiDecoder.ReadElem` | src/decoder/ascii.rs:76-135 | one pass of the element loop equals its specification |
| `AsciiDecoder.ReadFields` | src/decoder/ascii.rs:71-137 | the field loop equals its specification |
| `AsciiDecoder.ReadFieldStep` | src/decoder/ascii.rs:71-135 | one pass of the field loop keeps the columns equal to the fields read so far and the token position at the next field's first cell, or stops with the whole line's result |
| `AsciiDecoder.ReadPoints` | src/decoder/ascii.rs:58-138 | the point loop equals its specification over the input's lines |
| `AsciiDecoder.ReadPoint` | src/decoder/ascii.rs:58-137 | one pass of the point loop: UnexpectedEof at the end of input, otherwise the next line read as point i, equal to its specification |
| `AsciiDecoder.Decode` | src/decoder/ascii.rs:36-141 | `decode` sets n elements per column and equals its specification (`Decoded`; `DecodedValues` gives each element) |
| `AsciiDecoder.LinesRead` | src/decoder/ascii.rs:58-66 | the points that find a line: all n, or as many as the body has lines |
| `AsciiDecoder.ElemsReadOther` | src/decoder/ascii.rs:75-137 | the element loop changes no column but its field's |
| `AsciiDecoder.ElemsReadAt` | src/decoder/ascii.rs:75-137 | after k elements read without error, element i*count+j (j < k) of the field's column holds token TokenBase + j's value; every other element is unchanged |
| `AsciiDecoder.FieldsReadOther` | src/decoder/ascii.rs:71-138 | the field loop changes no column that none of its fields has |
| `AsciiDecoder.FieldsReadAt` | src/decoder/ascii.rs:71-138 | with distinct slots, a line read without error puts each field's tokens at elements i*count .. i*count+count-1 of its column and keeps the rest |
| `AsciiDecoder.FieldsReadParses` | src/decoder/ascii.rs:71-138 | a line read without error has each field's tokens, and each parses as the field's type |
| `AsciiDecoder.PointsReadOther` | src/decoder/ascii.rs:58-139 | the point loop changes no column that no field has |
| `AsciiDecoder.PointsReadAt` | src/decoder/ascii.rs:58-139 | after i points read without error, element j*count+k (j < i) of field g's column holds line j's token for it |
| `AsciiDecoder.PointsReadBeyond` | src/decoder/ascii.rs:58-139 | after i points read without error, a field's elements from i*count on are unchanged |
| `AsciiDecoder.PointsReadParses` | src/decoder/ascii.rs:58-139 | after n points read without error, each line i < n was present and each of its cells parses as its field's type |
| `AsciiDecoder.DecodedValues` | src/decoder/ascii.rs:36-141 | a decode that succeeds had every name present and none repeated, and for every point i < n and element k, line i's token for it parses, and its value is element i*count+k of the field's column |
| `AsciiDecoder.DecodedRest` | src/decoder/ascii.rs:36-141 | a decode that succeeds leaves a field's elements from n*count up to n as the resize made them |
| `AsciiDecoder.DecodedUntouched` | src/decoder/ascii.rs:36-141 | whatever its result, a column no field names is changed only by the resize |
| `AsciiDecoder.ElemsReadStops` | src/decoder/ascii.rs:76-85 | after an element fails, the later ones change nothing |
| `AsciiDecoder.FieldsReadStops` | src/decoder/ascii.rs:71-74 | after a field fails, the later ones change nothing |
| `AsciiDecoder.PointsReadStops` | src/decoder/ascii.rs:58-66 | after a point fails, the later ones change nothing |
| `AsciiDecoder.PointsReadEof` | src/decoder/ascii.rs:61-66 | a point with no line left fails with UnexpectedEof |
| `AsciiDecoder.TokensParseEach` | src/decoder/ascii.rs:76-85 | tokens a to b are present and each parses as the type |
| `AsciiDecoder.ElemsReadOk` | src/decoder/ascii.rs:76-135 | the element loop succeeds exactly when its tokens are present and parse |
| `AsciiDecoder.CellsParseEach` | src/decoder/ascii.rs:71-135 | every cell of the line is present and parses as its field's type |
| `AsciiDecoder.FieldsReadOk` | src/decoder/ascii.rs:71-135 | a line is read exactly when all its cells are present and parse |
| `AsciiDecoder.FieldsReadPrefix` | src/decoder/ascii.rs:68-85 | tokens after the last field's cells are ignored |
| `AsciiDecoder.ElemsReadPrefix` | src/decoder/ascii.rs:76-85 | tokens after a field's cells do not affect it |
| `AsciiDecoder.FieldsReadTyped` | src/decoder/ascii.rs:71-135 | reading a line keeps every column well typed |
| `AsciiDecoder.PointsReadTyped` | src/decoder/ascii.rs:58-138 | the point loop keeps every column well typed |
| `AsciiDecoder.ResizedSlotsFit` | src/decoder/ascii.rs:37-54 | after the resize, every field's elements fit its column |
| `Writer.Then` | src/io/writer.rs:84-211 | `?`: after a failure nothing more is emitted; otherwise bytes are appended and the later result is taken |
| `Writer.FoldStops` | src/io/writer.rs:96-101 | once a step fails, the later steps change nothing |
| `Writer.FoldOk` | src/io/writer.rs:96-101 | ok exactly when every step is; otherwise the first failing step's error, after its bytes and those before it |
| `Writer.FoldLength` | src/io/writer.rs:96-101 | when every step succeeds, the output is theirs end to end |
| `Writer.FoldAt` | src/io/writer.rs:96-101 | step j's bytes sit after those of the steps before it |
| `Writer.FoldUniformAt` | src/io/writer.rs:96-101 | steps of width w: step j sits at j * w |
| `Writer.Decimals` | src/io/writer.rs:44-82 | one token per number |
| `Writer.Letters` | src/io/writer.rs:44-82 | one token per TYPE letter |
| `Writer.ViewpointTokens` | src/io/writer.rs:61-71 | seven viewpoint tokens |
| `Writer.HeaderLines` | src/io/writer.rs:44-82 | ten header lines |
| `Writer.FirstAbsent` | src/io/writer.rs:86-93 | the first name from g on without a column, none exactly when all have one |
| `Writer.Collected` | src/io/writer.rs:86-93 | an error exactly when a column is missing, "Missing column " and the first missing name; else each field's column |
| `Writer.CollectedLongEnough` | src/io/writer.rs:86-93 | the collected columns are as long and as well typed as the store's |
| `Writer.ElemsBytes` | src/io/writer.rs:103-201 | count elements take count times the element size bytes |
| `Writer.ElemTokens` | src/io/writer.rs:232-312 | one token per element |
| `Writer.FieldOut` | src/io/writer.rs:103-206 | a field is written exactly when its column has the header's type, then as size * count bytes; a failing field emits nothing |
| `Writer.FieldOuts` | src/io/writer.rs:98-101 | one output per field of a point |
| `Writer.PointOuts` | src/io/writer.rs:96-101 | one record output per point |
| `Writer.FieldErrors` | src/io/writer.rs:103-206 | an unknown (TYPE, SIZE) is UnsupportedType in binary and is skipped in ASCII; a column of another type is LayoutMismatch(0, 0) in both |
| `Writer.FieldOutsOk` | src/io/writer.rs:98-101 | a point is written exactly when every field is typed |
| `Writer.BinaryOutOk` | src/io/writer.rs:84-211 | `write_binary`'s specification (`Writer.BinaryOut`) succeeds exactly when the columns are collected and, with points, every field is typed; else the first untyped field's error |
| `Writer.PointOutRecord` | src/io/writer.rs:96-206 | the output of a typed point (`Writer.PointOut`) is `total_size` bytes |
| `Writer.PointOutField` | src/io/writer.rs:96-206 | field f of a point sits at the layout's offset for f |
| `Writer.WidthIsOffset` | src/io/writer.rs:98-101 | the bytes before field f are the layout's offset of f |
| `Writer.RecordsWhole` | src/io/writer.rs:96-101 | every typed point is a whole record |
| `Writer.BinaryBodyLength` | src/io/writer.rs:84-211 | a typed binary body is points records of `total_size` bytes |
| `Writer.BinaryBodyField` | src/io/writer.rs:84-211 | field f of point j sits at j * total_size + offset in the body |
| `Writer.RecordLaidOut` | src/io/writer.rs:96-206 | every typed point's output is a whole record, and field f of point j sits at the layout's offset for f in point j's record |
| `Writer.FieldTokens` | src/io/writer.rs:232-313 | an error exactly for a known type whose column differs; a typed field gives count tokens |
| `Writer.AsciiLine` | src/io/writer.rs:224-317 | a failing point emits nothing |
| `Writer.AsciiLines` | src/io/writer.rs:224-229 | one line per point |
| `Writer.SoaType` | src/io/writer.rs:337-342 | the types of the table, plus F of any other size as F64; none only for an unknown non-F pair |
| `Writer.SoaReach` | src/io/writer.rs:324-327 | how far the field loop gets: every field before it has a column, and the field at it, if any, has none |
| `Writer.SoaPart` | src/io/writer.rs:324-383 | a field's SoA part fails exactly when its column is missing |
| `Writer.SoaParts` | src/io/writer.rs:324-383 | one part per field the loop reaches: every field up to and including the first without a column |
| `Writer.SoaMissing` | src/io/writer.rs:324-327 | a field the loop reaches without a column ends the loop with "Missing column" and its name, after the buffer so far |
| `Writer.SoaPresent` | src/io/writer.rs:324-383 | a field the loop reaches with a column has SIZE and TYPE entries and adds its whole column, or nothing when skipped, and the loop goes on to the next field |
| `Writer.SoaDone` | src/io/writer.rs:324-383 | a loop that passes the last field with every part succeeding yields its buffer |
| `Writer.SoaReached` | src/io/writer.rs:324-383 | every part before the first missing column succeeds, so the loop gets that far |
| `Writer.CompressedMissing` | src/io/writer.rs:320-401 | when a field has no column, the first such field gives "Missing column" with its name, and nothing is written |
| `Writer.CompressedComplete` | src/io/writer.rs:320-401 | with every column present the collected buffer succeeds and is what gets framed |
| `Writer.U32Le` | src/io/writer.rs:394-398 | `as u32` written little-endian: 4 bytes |
| `Writer.PcdWriter.constructor` | src/io/writer.rs:30-32 | nothing written |
| `Writer.PcdWriter.Emit` | src/io/writer.rs:394-398 | `write_all` appends exactly the bytes to the sink |
| `Writer.PcdWriter.WriteLine` | src/io/writer.rs:44-82 | `writeln!` appends the line, a newline, in UTF-8 |
| `Writer.PcdWriter.WritePcd` | src/io/writer.rs:34-42 | the header's bytes, then the body the DATA line names (`Writer.BodyOut`), and its result |
| `Writer.PcdWriter.WriteHeader` | src/io/writer.rs:44-82 | the ten header lines (`Writer.HeaderBytes`) |
| `Writer.PcdWriter.CollectColumns` | src/io/writer.rs:86-93 | the collecting loop equals its specification |
| `Writer.PcdWriter.WriteBinary` | src/io/writer.rs:84-211 | `write_binary` appends exactly its specification's bytes and returns its result |
| `Writer.PcdWriter.WritePoints` | src/io/writer.rs:96-101 | the point loop, up to the first failing point |
| `Writer.PcdWriter.WritePoint` | src/io/writer.rs:98-101 | the field loop of one point |
| `Writer.PcdWriter.WritePointStep` | src/io/writer.rs:96-101 | one pass of the point loop keeps the written bytes equal to the fold of the points so far, or, on a failure, leaves the whole fold's bytes and returns its result |
| `Writer.PcdWriter.WriteFieldStep` | src/io/writer.rs:98-101 | one pass of the field loop keeps the written bytes equal to the fold of the fields so far, or, on a failure, leaves the whole fold's bytes and returns its result |
| `Writer.PcdWriter.WriteField` | src/io/writer.rs:103-206 | one field of one point |
| `Writer.PcdWriter.WriteAscii` | src/io/writer.rs:213-319 | `write_ascii` appends exactly its specification's bytes (`Writer.AsciiOut`) and returns its result |
| `Writer.PcdWriter.WriteAsciiLines` | src/io/writer.rs:224-318 | the point loop, up to the first failing point |
| `Writer.PcdWriter.WriteAsciiStep` | src/io/writer.rs:224-318 | one pass of the ASCII point loop keeps the written bytes equal to the fold of the lines so far, or, on a failure, leaves the whole fold's bytes and returns its result |
| `Writer.PcdWriter.WriteAsciiPoint` | src/io/writer.rs:224-317 | one point's tokens, then its line |
| `Writer.PcdWriter.PointTokens` | src/io/writer.rs:230-315 | the field loop gathering one point's tokens |
| `Writer.PcdWriter.AppendTokens` | src/io/writer.rs:232-312 | appends the tokens of count elements |
| `Writer.PcdWriter.CollectSoa` | src/io/writer.rs:324-383 | the SoA loop equals its specification (`Writer.SoaBuffer`: the parts in order, stopping at the first missing column) |
| `Writer.PcdWriter.CollectField` | src/io/writer.rs:324-383 | one turn of the SoA loop: a missing column ends the loop with its error; otherwise the field's part is added and the loop goes on |
| `Writer.PcdWriter.AppendColumn` | src/io/writer.rs:324-383 | appends the LE bytes of the whole column |
| `Writer.PcdWriter.WriteCompressedBinary` | src/io/writer.rs:320-401 | `write_compressed_binary` appends exactly its specification's bytes (`Writer.CompressedOut`) and returns its result |
| `Writer.PcdWriter.WriteFrame` | src/io/writer.rs:385-400 | the compression and its three writes (`Writer.Framed`) |
| `Reader.Opened` | src/io/reader.rs:48-63 | a header error or a layout error is returned as is; otherwise a reader whose body is the input after the DATA line |
| `Reader.OpenedReader` | src/io/reader.rs:48-63 | a reader opens exactly when the header parses and every field resolves; its header, layout and body |
| `Reader.New` | src/io/reader.rs:48-63 | `PcdReader::new` on a stream |
| `Reader.FromPathMmap` | src/io/reader.rs:66-87 | `from_path_mmap` on the mapped file |
| `Reader.Open` | src/io/reader.rs:48-87 | parse the header, resolve the layout, keep the body |
| `Reader.FreshStoreAgrees` | src/io/reader.rs:95-104 | the new store indexes every field, with matching types exactly when fields sharing a name share a type |
| `Reader.FreshStoreIndexed` | src/io/reader.rs:95-104 | the new store's index names every field and points inside the columns |
| `Reader.Choose` | src/io/reader.rs:106-153 | the parallel decoder exactly for binary on a memory map with `rayon`; compressed and ASCII by format |
| `Reader.BinaryOutcome` | src/io/reader.rs:106-120 | a result holds n elements of each field's type |
| `Reader.BinaryShaped` | src/io/reader.rs:106-120 | with distinct names, the stream decoder's store for a new block has each field's type and n elements |
| `Reader.ParallelOutcome` | src/io/reader.rs:122-153 | a result holds n elements of each field's type |
| `Reader.CompressedOutcome` | src/io/reader.rs:106-153 | fails exactly when the frame, decompression or size check fails; a result holds n elements of each field's type |
| `Reader.AsciiOutcome` | src/io/reader.rs:106-153 | a result holds n elements of each field's type |
| `Reader.ReadOutcome` | src/io/reader.rs:94-157 | a result holds `points` elements of each field's type |
| `Reader.ReadAll` | src/io/reader.rs:94-157 | a new store with the layout's schema and `points` elements per column, filled by the chosen decoder, or its error |
| `Reader.NewBlock` | src/io/reader.rs:95-104 | a new store for the layout |
| `Reader.ReadBinary` | src/io/reader.rs:106-120 | the binary arm on a stream |
| `Reader.ReadParallel` | src/io/reader.rs:122-153 | the binary arm on a memory map |
| `Reader.ReadCompressed` | src/io/reader.rs:106-153 | the compressed arm, which asks for fitting, typed blocks only once the buffer is obtained |
| `Reader.ReadAscii` | src/io/reader.rs:106-153 | the ASCII arm, which asks only that the points that find a line fit their columns |
| `Reader.FileOutcome` | src/io/reader.rs:160-165 | a result means the file opened, and holds its points |
| `Reader.ReadPcdFile` | src/io/reader.rs:160-165 | `read_pcd_file` opens and reads the file, or returns its error |
| `Reader.ParallelMatchesStream` | src/io/reader.rs:106-153 | on a memory map, with enough data and distinct names, the parallel and stream readers agree; with too little, BufferTooSmall and an error |
| `Reader.ParallelWhole` | src/io/reader.rs:106-153 | with distinct names and a whole body, the parallel decoder succeeds with the stream decoder's outcome |
| `Reader.ParallelShort` | src/io/reader.rs:106-153 | with a body shorter than n records, the parallel decoder returns BufferTooSmall(total, got) and the stream decoder an error |
| `HeaderRoundTrip.HeaderParsesBack` | src/header/parser.rs:19-118 | the header `write_header` emits parses back to the same header, the body starting after it |
| `HeaderRoundTrip.LinesLoop` | src/header/parser.rs:26-118 | lines each moving the header on, the last stopping it, parse to that header |
| `HeaderRoundTrip.KeyLine` | src/header/parser.rs:37-47 | a key line of tokens is applied as its key and arguments |
| `HeaderRoundTrip.KeyLineParts` | src/header/parser.rs:37-47 | a written key line splits into the key and then its arguments |
| `HeaderRoundTrip.KeyLineText` | src/header/parser.rs:26-36 | a written key line holds no newline and only ASCII |
| `HeaderRoundTrip.DecimalsParse` | src/header/parser.rs:120-130 | numbers written with `to_string` parse back as a list |
| `HeaderRoundTrip.UsizeOfDecimal` | src/header/parser.rs:92-94 | a number written with `to_string` parses back as usize |
| `HeaderRoundTrip.VersionLine` | src/header/parser.rs:48-50 | the VERSION line sets the version |
| `HeaderRoundTrip.FieldsLine` | src/header/parser.rs:51-53 | the FIELDS line sets the names |
| `HeaderRoundTrip.SizesLine` | src/header/parser.rs:54-56 | the SIZE line sets the sizes |
| `HeaderRoundTrip.TypesLine` | src/header/parser.rs:57-71 | the TYPE line sets the letters |
| `HeaderRoundTrip.CountsLine` | src/header/parser.rs:72-74 | the COUNT line sets the counts |
| `HeaderRoundTrip.WidthLine` | src/header/parser.rs:75-77 | the WIDTH line sets the width |
| `HeaderRoundTrip.HeightLine` | src/header/parser.rs:78-80 | the HEIGHT line sets the height |
| `HeaderRoundTrip.ViewpointLine` | src/header/parser.rs:81-91 | the VIEWPOINT line sets the viewpoint |
| `HeaderRoundTrip.PointsLine` | src/header/parser.rs:92-94 | the POINTS line sets the points |
| `HeaderRoundTrip.DataLine` | src/header/parser.rs:95-111 | the DATA line of a consistent header ends it with that format |
| `HeaderRoundTrip.HeaderLineStep` | src/io/writer.rs:44-82 | each written header line moves the parse on by one key, the last ending it |
| `RoundTrip.LayoutNames` | src/layout/mod.rs:93-100 | the layout names the header's fields in order |
| `RoundTrip.RowIsElement` | src/io/writer.rs:96-206 | with one element per point, a field's row is the LE encoding of its element |
| `RoundTrip.SingleLayout` | src/layout/mod.rs:35-109 | the layout facts the binary round trip needs |
| `RoundTrip.BinaryBodyWhole` | src/decoder/binary.rs:60-62 | the written body holds every record the decoder reads |
| `RoundTrip.BinaryDecodes` | src/decoder/binary.rs:37-129 | decoding the written body with the header's layout succeeds |
| `RoundTrip.BinaryRoundTripAt` | src/decoder/binary.rs:37-129 | decoding the written body gives back element j of every column |
| `RoundTrip.TypedResolvable` | src/layout/mod.rs:58-77 | a header the writer accepts resolves to a layout |
| `RoundTrip.BinaryFileRoundTrip` | src/io/reader.rs:160-165 | a binary file from the writer, read by `read_pcd_file`, gives back every element written |
| `RoundTrip.U32LeExact` | src/io/writer.rs:394-398 | `as u32` keeps a length below 2^32 |
| `RoundTrip.FramedBuffer` | src/io/writer.rs:385-398 | a compressed frame decodes back to the buffer; a raw frame reads with both lengths equal; a failed compression emits nothing |
| `RoundTrip.FreshIndexAt` | src/io/reader.rs:95-104 | with no name twice, the new store indexes each field's name to the field's own position |
| `RoundTrip.DecodedFieldAt` | src/decoder/binary.rs:37-129 | with one element per point, element j of field f of the new store filled from a whole body is field f's bytes of record j, decoded |
| `RoundTrip.BodyFieldDecodes` | src/io/writer.rs:96-206 | with one element per point, field f's bytes of point j in the written body decode to element j of field f's column |
| `RoundTrip.TokenParsesBack` | src/io/writer.rs:253-262 | an integer element formatted by `write_ascii` (`Writer.Token`) is a token the ASCII decoder parses back to the same element |

## Left out

- File and sink I/O: the reader is given the whole file as bytes, and the writer appends to a byte sequence. Write errors are not modelled; the only I/O error is UnexpectedEof from a short input.
- `rayon` and the memory map: the parallel decoder's loop runs in sequence, so neither scheduling nor the aliasing of raw column addresses is modelled. `Records.DestinationInjective` shows that the writes never collide. The raw-pointer writes are unchecked in the source, so an out-of-bounds or wrongly typed write would corrupt memory rather than panic; the model demands of its callers exactly what keeps them in bounds and typed.
- The `lzf` crate: compression and decompression are parameters, with `LzfRoundTrip` as their law.
- Float text: `parse::<f32>`/`parse::<f64>` and `{}`/`{:.6}` formatting are parameters (`FloatText`).
- AsciiDecoder, Parser: non-ASCII input. The header lines and the ASCII body are read one byte per character (Latin-1) and split on Unicode whitespace, while the source reads each line into a UTF-8 `String` and returns an error on invalid UTF-8. For non-ASCII bytes the two differ: a multi-byte character is several characters here, 0x85 and 0xA0 separate tokens here but not in Rust, and U+3000 separates tokens in Rust but not here. Only ASCII input is modelled faithfully; the writer's text is encoded as UTF-8.
- `src/storage/view.rs`, `src/error.rs` (modelled by `Errors`) and the decoder traits in `src/decoder/mod.rs` are not part of this model.
- `usize` overflow in products such as `total_size * points` is not modelled: integers are unbounded.
- The error values `Display`/`Debug` print: each error is its variant and message string, and `UnsupportedType` holds as text the letter, and for I, U and F also the size.
- The `contains_key` check at src/decoder/binary.rs:42-49 is modelled as a lookup of the name in the store's index.
- The `element_size` check at src/layout/mod.rs:83-89 can never fail after the type table, so it is not modelled separately.
- Column is one datatype tagged with its `ValueType`, not eight enum variants; the accessors `as_u8`…`as_f64` check the tag.
- `Column::is_empty`, `PointBlock::schema`, `num_columns`, `columns` and `get_column_mut_by_index` are plain field reads, covered by `Storage.PointBlock.GetColumnByIndex` and the class fields.
- The builder setters `width`, `height`, `data_format`, `viewpoint` and `version` are record updates with no contract of their own; `Builder.BuiltHeader` states what they set.
- `Header.IsOrganized` (`height > 1`) is a predicate with nothing to prove.
- BinaryDecoder.Decode: requires, when every name has a column and no name repeats, that the records the stream delivers fit in n rows and, once a record is read, that each field's column has the field's type. The source slices `i * count .. i * count + count` out of a column of n elements and unwraps the typed accessor, so it panics otherwise.
- ParallelDecoder.DecodePar: requires `total_size > 0`, because `par_chunks_exact(0)` panics; and, once the buffer holds all n records, that they fit in n rows and that the types agree, because the raw-pointer writes are unchecked.
- CompressedDecoder.Decode: requires Storable once the buffer is obtained. That is, every field before the first one without a column fits its column (at most one element per point, exactly one for U8 because of `copy_from_slice`, any count for I8, whose `zip` stops at the column's end) and has a column of its own type. The source slices and unwraps for exactly those fields, so it panics otherwise. Frame, decompression and size errors ask nothing. With every field present, Storable is BlocksFit and TypesAgree (`StorableAllPresent`). CompressedDecoder.StoreBlocks and CompressedDecoder.Fill require the same.
- AsciiDecoder.Decode: requires, when every name has a column and no name repeats, TypesAgree and that the points which find a line (`LinesRead`) fit n rows. This asks for more than the source needs in three cases, where the source never reaches the index or the unwrap that would panic: when a token error stops the loop first; when no line is read at all (n is 0, or the body is empty and the first point fails with UnexpectedEof), yet TypesAgree is still required; and for a field of COUNT 0, whose column is never touched, yet whose type must still agree. Reader.ReadAscii requires the same, for the new store.
- Writer.PcdWriter.WriteBinary: requires Indexable (SIZE, TYPE and COUNT cover every field) even when POINTS is 0, where the source never reads them, and ColumnsLongEnough (`points * count` elements) for every field whose column exists, even one of another type or of an unknown (TYPE, SIZE) pair, for which the source returns LayoutMismatch or UnsupportedType without indexing. Writer.BinaryOut requires the same.
- Writer.PcdWriter.WriteAscii: requires Indexable and ColumnsLongEnough in the same excess as WriteBinary. Writer.AsciiOut requires the same.
- Writer.PcdWriter.WritePcd: requires Writable, which carries those conditions for the binary and ASCII bodies, and for the compressed body the conditions of WriteCompressedBinary. Writer.BodyOut requires the same.
- Writer.PcdWriter.WriteCompressedBinary: requires SoaIndexable and Unwrappable. These ask only about the fields before the first one without a column (`SoaReach`), which the loop reaches with a column in hand. For those fields the source reads the COUNT and TYPE entries, and it reads SIZE only for the letters F, U and I; SoaIndexable asks for a SIZE entry even for any other letter, where the source skips the field without reading SIZE, and this is more than the source needs. Unwrappable asks for a column of the type whose accessor the source unwraps, or the source panics.
- Writer.CompressedOut: requires SoaIndexable only, not Unwrappable. Where Unwrappable fails, it gives the column's bytes in the column's own type, on an input where the source panics (for example a field with TYPE F and SIZE 4 stored as a U8 column, where the source's `as_f32().unwrap()` fails). Writer.SoaBuffer, Writer.SoaParts and Writer.PcdWriter.CollectSoa are the same, and all four ask for the SIZE entry in the same excess as WriteCompressedBinary.
- Reader.ReadAll: requires Readable, which gathers the conditions above for the decoder `read_all` chooses, each as guarded as that decoder's own. Reader.ReadOutcome requires the same. Reader.ReadPcdFile and Reader.FileOutcome require it of the file, once it opens.
- RoundTrip.BinaryFileRoundTrip: requires Printable (names, version and type letters are whitespace-free ASCII tokens, and each viewpoint number's text parses back), distinct field names and one element per field.
- HeaderRoundTrip.HeaderParsesBack: requires Printable, for the same reason.
- RoundTrip.FramedBuffer: a buffer LZF cannot compress is framed raw with both lengths equal. The compressed decoder then passes the raw bytes to `decompress`, so whether such a file reads back depends on how LZF treats its input. No round trip is claimed for that case.
- The compressed and ASCII bodies are not proved to round-trip through the reader. Their writers and decoders are each proved against their own specification, and the ASCII writer's integer tokens parse back element by element (`RoundTrip.TokenParsesBack`).
