# ISO/IEC 8211 data descriptive record decoder, in Dafny

This project models the part of the `rust-iso8211` reader (an S-57
`CATALOG.031` reader) that opens a catalog: it reads the Data Descriptive
Record (DDR) at the head of an ISO/IEC 8211 file and decodes it into its
leader, its directory and its data descriptive fields. It proves what those
decoders promise.

The decoders, from the outside in:

- **`RecordDecoder`** (catalog.rs `Catalog::new`, `parse_ddr`, `parse_ddfs`,
  `parse_ddf`).
  - The reader is modelled as the byte stream it yields.
  - `CatalogNew` reads the five-digit record length, then the rest of the
    record, and decodes the record.
  - `ParseDdr` decodes the 19-byte leader and looks for the first record
    separator (0x1E). The directory lies between the leader and the
    separator; the field area lies after it.
  - `ParseDdfs` decodes one data descriptive field per directory entry after
    the first. Each field is the slice at the entry's offset, one byte
    shorter than its length.
  - `ParseDdf` splits a field on the unit separator (0x1F) into:
    - nine bytes of field controls followed by the field name;
    - the array descriptor;
    - the format controls.
    It then zips the subfield names with their descriptors.
- **`LeaderDecoder`** (`parse_leader`): the fixed leader fields, the base
  address (five digits) and the three one-digit widths of the directory's
  entry map.
- **`DirectoryDecoder`** (`parse_directory`).
  - The directory is read in chunks of `ftf + flf + fpf` bytes; each chunk
    is a tag, a length and an offset.
  - `ParseDirectory` is the loop of the source, written as a method. It is
    proved equal to the function `DecodeDirectory`, which the record decoder
    and the lemmas use.
- **`FieldControlDecoder`** (`parse_field_controls` and the three code tables
  `DataStructureCode`, `DataTypeCode`, `TruncEscSeq`).
- **`DescriptorDecoder`** (`parse_array_descriptors`,
  `parse_format_controls`).
  - Array descriptors are '!'-separated subfield names. An empty descriptor
    stands for the record identifier "DRID".
  - Format controls are a parenthesised, ','-separated list of tokens. Each
    token is expanded into as many descriptors as its count says.
- **`DataParser`** (data_parser.rs `ParseData::new`).
  - A token matches `^(\d+)?([AIR])(\(\d*\))?`: an optional count, a type
    letter and an optional width in parentheses.
  - It yields a count (1 when absent) and a `Fixed(type, width)` or
    `Variable(type)` descriptor.
  - The regular expression is modelled by `Capture`, which finds the three
    groups directly.
- **`Scalars`**, **`Bytes`** and **`Errors`** hold the shared pieces:
  - `parse_to_usize` and `parse_to_string`;
  - Rust's `usize::from_str` and `str::from_utf8` (as a UTF-8 validity
    predicate);
  - `split`, `position`;
  - the error chain built by the `failure` crate's `.context(..)`:
    `Leaf(kind)` is an error made from an `ErrorKind`, and
    `Context(kind, cause)` is `cause` with `kind` put around it.

Conventions of the model:

- Text is kept as its UTF-8 bytes (`seq<Byte>`). Splitting valid UTF-8 on an
  ASCII separator byte is what Rust's `str::split` does: an ASCII byte never
  sits inside a multi-byte character, so the pieces are text again
  (`Bytes.SplitUtf8`).
- A Rust panic (slice out of range, `unwrap` of a failed parse, `usize`
  underflow) becomes a `requires` clause. These clauses follow the source's
  evaluation order exactly, so they exclude no input that the source handles:
  - `FieldControlsDefined`, `DdfDefined`, `FieldsDefined`, `DdrDefined`,
    `CatalogDefined`;
  - `NewDefined` for `ParseData::new`.

  One of these panics is easy to miss: `parse_ddr` looks for the first record
  separator (0x1E) over the whole record, leader included, so a leader that
  holds one makes `ddr_bytes[19..index]` a backwards slice. The model states
  this as `19 <= idx` in `BodyDefined`, and `SeparatorInLeader` shows that
  such a record is outside `DdrDefined` even when its leader reads.
- Integers are unbounded, and `usize` limits are stated explicitly: a count,
  a width or a number above `UsizeMax` is refused as `from_str` refuses it.

## Model

| member | source | states |
|---|---|---|
| Scalars.UsizeFromStr | src/catalog.rs:133-136 | `usize::from_str` accepts exactly an optional '+' and one or more digits whose value fits a usize, and returns that value; the empty string is refused as Empty |
| Scalars.AccumulateSpec | src/catalog.rs:135-136 | the digit-by-digit scan with overflow check accepts a digit run exactly when its full decimal value fits a usize, and then yields that value |
| Scalars.ParseToUsize | src/catalog.rs:132-137 | succeeds exactly on usize literals, with their value; invalid UTF-8 is UtfError, other text a ParseIntError, empty input ParseIntError(Empty) |
| Scalars.PaddedDecimalParses | src/catalog.rs:132-137 | any number written as zero-padded digits of a fixed width parses back to itself |
| Bytes.Position | src/catalog.rs:318-321 | the index of the first occurrence of a byte, or -1 exactly when the byte does not occur |
| Bytes.SplitJoin | src/catalog.rs:227-230 | splitting gives one more piece than there are separators, no piece holds the separator, and joining the pieces gives the input back |
| Bytes.SplitUtf8 | src/catalog.rs:227-230 | splitting valid UTF-8 at an ASCII separator gives pieces that are each valid UTF-8, so `str::split` on the text and splitting its bytes agree |
| Bytes.JoinSplit | src/catalog.rs:227-230 | pieces free of the separator are recovered by splitting their join |
| LeaderDecoder.ParseLeader | src/catalog.rs:145-174 | succeeds exactly when the base address and the three entry-map widths are numbers; then each field is the byte at its fixed position, the base address is below 100000 and the record length is the one given; a failure is InvalidLeader around a UTF-8 or integer error |
| LeaderDecoder.BaseAddressBound | src/catalog.rs:153 | a five-byte base address is below 100000, so the cast to u32 never truncates |
| LeaderDecoder.LeaderRoundTrip | src/catalog.rs:145-174 | every leader with one-digit widths and a five-digit base address is read back from its 19-byte encoding |
| LeaderDecoder.LeaderReencodes | src/catalog.rs:145-174 | a 19-byte leader that decodes, with a plain-digit base address, is exactly the encoding of what it decodes to |
| LeaderDecoder.ExampleLeader | src/catalog.rs:396-403 | "3LE1 0900058 ! 3404" with length 241 decodes to the test fixture leader |
| DirectoryDecoder.ParseEntrySpec | src/catalog.rs:185-189 | a chunk decodes exactly when its tag is text and its length and offset fields are usize literals; it then holds those three values; a failure is the bare UTF-8 or integer error |
| DirectoryDecoder.Chunks | src/catalog.rs:179 | `chunks(size)` cuts the span into non-empty pieces of `size` bytes, except possibly a shorter last one, which laid end to end give the span |
| DirectoryDecoder.ParseDirectory | src/catalog.rs:177-193 | the loop over the chunks returns the same result as the directory specification DecodeDirectory |
| DirectoryDecoder.DirectoryDecodesIff | src/catalog.rs:177-193 | the directory decodes exactly when every chunk is full-sized and decodes; it then holds one entry per chunk, in order, each the decoding of its chunk |
| DirectoryDecoder.DecodeChunksFirstError | src/catalog.rs:181-190 | a failing directory fails with the error of its first bad chunk: BadDirectoryData for a short chunk, otherwise that chunk's own parse error |
| DirectoryDecoder.ChunksAligned | src/catalog.rs:179-184 | all chunks are full-sized exactly when the span length is a multiple of the chunk size |
| DirectoryDecoder.DirectoryLength | src/catalog.rs:178-184 | a directory that decodes is a whole number of entries long and has span length / entry size entries |
| DirectoryDecoder.MisalignedDirectoryFails | src/catalog.rs:181-184 | a span that is not a whole number of entries never decodes, and fails with BadDirectoryData when the earlier chunks decode |
| DirectoryDecoder.EntryRoundTrip | src/catalog.rs:185-189 | an entry whose tag has the tag width and whose numbers fit their widths is read back from its encoding |
| DirectoryDecoder.DirectoryRoundTrip | src/catalog.rs:177-193 | a list of such entries, encoded one after the other, decodes to the same list |
| DirectoryDecoder.ExampleDirectory | src/catalog.rs:405-412 | under the fixture leader, "0000019000000010440019CATD1200063" decodes to the fixture's three entries |
| FieldControlDecoder.DataStructureCodeFromStr | src/catalog.rs:54-64 | accepts exactly "0", "1", "2", each the text of its code; anything else is BadDataStructureCode carrying the text |
| FieldControlDecoder.DataStructureCodeRoundTrip | src/catalog.rs:54-64 | every data structure code is read back from its text |
| FieldControlDecoder.DataTypeCodeFromStr | src/catalog.rs:74-86 | accepts exactly "0", "1", "2", "5", "6", each the text of its code; anything else is BadDataTypeCode carrying the text |
| FieldControlDecoder.DataTypeCodeRoundTrip | src/catalog.rs:74-86 | every data type code is read back from its text |
| FieldControlDecoder.TruncEscSeqFromStr | src/catalog.rs:95-105 | accepts exactly "   ", "-A ", "%/A", each the text of its level; anything else is BadTruncEscSeq carrying the text |
| FieldControlDecoder.TruncEscSeqRoundTrip | src/catalog.rs:95-105 | every escape level is read back from its text |
| FieldControlDecoder.ParseFieldControls | src/catalog.rs:195-218 | a success is exactly the encoding of the controls it returns, with two-byte text auxiliary and printable controls; a failure is a UTF-8 error or BadFieldControl around the code-table error naming the offending byte(s) |
| FieldControlDecoder.FieldControlsRoundTrip | src/catalog.rs:195-218 | every set of field controls with two-byte text auxiliary and printable parts is read back from its encoding |
| FieldControlDecoder.ExampleFieldControls | src/catalog.rs:414-420 | "1600;&-A " decodes to LS, MDT, "00", ";&", LE1 |
| DataParser.TypeLetterRoundTrip | src/data_parser.rs:36-41 | the letters A, I, R and the types String, Integer, Float correspond one to one |
| DataParser.MatchIff | src/data_parser.rs:8 | the token pattern matches exactly when the token starts with a (possibly empty) run of digits followed by A, I or R |
| DataParser.ParseDataNew | src/data_parser.rs:32-50 | succeeds exactly when the pattern matches; otherwise fails with UnParsable carrying the token |
| DataParser.TokenRoundTrip | src/data_parser.rs:32-50 | a count, a type letter, an optional parenthesised width and any tail that does not start a width is read as that count (1 when absent) and Fixed(type, width) or Variable(type) |
| DataParser.TokenDecomposition | src/data_parser.rs:32-50 | every token that matches is such a count, letter, optional width and tail, and is read as their value |
| DataParser.ParsedTokenForm | src/data_parser.rs:32-50 | every token that parses has that shape and that value |
| DataParser.ExampleA3 | src/data_parser.rs:63-66 | "A(3)" is (1, Fixed(String, 3)) |
| DataParser.ExampleI10 | src/data_parser.rs:67-70 | "I(10)" is (1, Fixed(Integer, 10)) |
| DataParser.ExampleR5 | src/data_parser.rs:71-74 | "R(5)" is (1, Fixed(Float, 5)) |
| DataParser.Example5R | src/data_parser.rs:75-78 | "5R" is (5, Variable(Float)) |
| DataParser.Example10I | src/data_parser.rs:79-82 | "10I" is (10, Variable(Integer)) |
| DataParser.Example1A | src/data_parser.rs:83-86 | "1A" is (1, Variable(String)) |
| DataParser.Example2A3 | src/data_parser.rs:87-90 | "2A(3)" is (2, Fixed(String, 3)) |
| DataParser.Example10I10 | src/data_parser.rs:91-94 | "10I(10)" is (10, Fixed(Integer, 10)) |
| DataParser.Example1R5 | src/data_parser.rs:95-98 | "1R(5)" is (1, Fixed(Float, 5)) |
| DescriptorDecoder.ParseArrayDescriptors | src/catalog.rs:220-232 | the empty descriptor is ["DRID"]; otherwise it succeeds exactly on text, with one more name than there are '!', none containing '!', whose join is the input, each name valid UTF-8 text; a failure is UtfError |
| DescriptorDecoder.ArrayDescriptorsRoundTrip | src/catalog.rs:220-232 | names free of '!' are read back from the text they join into |
| DescriptorDecoder.ParseTokensSpec | src/catalog.rs:240-242 | collecting the parsed tokens succeeds exactly when every token parses, giving their values in order; otherwise it fails with UnParsable naming the first token that does not parse |
| DescriptorDecoder.Expand | src/catalog.rs:243-245 | the expansion is as long as the sum of the counts |
| DescriptorDecoder.ExpandAppend | src/catalog.rs:243-245 | expanding a concatenation is concatenating the expansions (token order is kept) |
| DescriptorDecoder.ExpandMembers | src/catalog.rs:243-245 | a descriptor appears in the expansion exactly when some token with a non-zero count carries it |
| DescriptorDecoder.ParseFormatControls | src/catalog.rs:234-247 | fails with EmptyFormatControls exactly when the input is shorter than two bytes; every failure is EmptyFormatControls, UtfError or UnParsable |
| DescriptorDecoder.FormatControlsSpec | src/catalog.rs:234-247 | a success means the text between the parentheses is valid, every ','-separated token parses, and the result is the expansion of their values in order |
| DescriptorDecoder.FormatControlsErrors | src/catalog.rs:234-247 | with two bytes or more, invalid text fails with UtfError, and valid text fails exactly when some token does not parse, naming the first such token |
| DescriptorDecoder.FormatControlsRoundTrip | src/catalog.rs:234-247 | tokens free of ',' that all parse, joined with ',' between parentheses, decode to the expansion of their values |
| DescriptorDecoder.ExampleEmptyFormatControls | src/catalog.rs:434-438 | the empty input fails with EmptyFormatControls |
| DescriptorDecoder.ExampleFormatControls | src/catalog.rs:440-446 | "(A(2),2I(10),2R)" decodes to Fixed(String, 2), twice Fixed(Integer, 10), twice Variable(Float) |
| RecordDecoder.Zip | src/catalog.rs:274-277 | pairs the i-th name with the i-th descriptor, for lists of equal length |
| RecordDecoder.ZipUnzip | src/catalog.rs:274-277 | zipping loses nothing: the names and the descriptors come back out |
| RecordDecoder.ParseDdf | src/catalog.rs:262-282 | a failure is CouldNotParseName around a UTF-8 error, or carries InvalidDDF naming the field |
| RecordDecoder.DdfSpec | src/catalog.rs:262-282 | a field decodes exactly when its name, controls, array descriptor and format controls decode and the names and descriptors are equally many; the entry then holds that name, those controls and the names paired with the descriptors; unequal numbers fail with InvalidDDF |
| RecordDecoder.MissingPartFails | src/catalog.rs:267-268 | a field with a valid name and controls but no array descriptor part fails with InvalidDDF naming it |
| RecordDecoder.ParseFieldsSpec | src/catalog.rs:249-260 | the fields decode exactly when every entry's slice decodes, giving one entry per field in order; otherwise the error is InvalidDDFS around the error of the first slice that does not decode |
| RecordDecoder.ParseDdfs | src/catalog.rs:249-260 | a success has one field per directory entry after the first; a failure is InvalidDDFS around the field's error |
| RecordDecoder.SeparatorInLeader | src/catalog.rs:317-323 | a record separator among the 19 leader bytes makes `parse_ddr` panic even when the leader reads: the record is outside DdrDefined |
| RecordDecoder.ParseDdr | src/catalog.rs:316-332 | a success has one field per directory entry after the first; a failure is BadDirectoryData or InvalidDDR around the cause |
| RecordDecoder.DdrSpec | src/catalog.rs:316-332 | a record that decodes has a valid leader and a record separator after the leader, with no earlier separator; the span before it is a whole number of directory entries that decode, the fields after it decode, and the record is exactly those parts |
| RecordDecoder.BodySpec | src/catalog.rs:318-331 | the same, for the record after its leader has been decoded |
| RecordDecoder.PartsSpec | src/catalog.rs:322-331 | the same, for the directory span and the field area once the separator is found |
| RecordDecoder.NoSeparatorFails | src/catalog.rs:318-321 | a record with a valid leader and no record separator fails with BadDirectoryData |
| RecordDecoder.CatalogNew | src/catalog.rs:299-313 | a stream shorter than five bytes fails with IOError(UnexpectedEof); a success means the first five bytes are a record length of at least 5 within the stream, the record decodes to the DDR, and the stream is left after the record; every failure is an I/O error, the length's parse error, or CouldNotParseCatalog around the cause |
| RecordDecoder.CatalogOfRecord | src/catalog.rs:299-313 | a stream that starts with a record, its length written in five digits in front of it, yields that record's DDR and the bytes after it, or fails with CouldNotParseCatalog around the record's error |
| RecordDecoder.BadLengthFails | src/catalog.rs:306 | a stream whose first five bytes are not a number fails with that parse error, with no context around it |

## Left out

- `ParseData::parse` (data_parser.rs:52-54) is a stub returning a constant, and `Data` holds floats; neither is used by the DDR decoder.
- `Display`, `Fail::cause` and `backtrace` of error.rs are formatting and diagnostics; the model keeps only the chain of error kinds.
- The source's error.rs does not declare several kinds that catalog.rs uses: InvalidLeader, InvalidDDR, InvalidDDF, InvalidDDFS, BadFieldControl, CouldNotParseName, CouldNotParseCatalog. It also declares BadDataStructureCode and its siblings without a payload. The model follows the use in catalog.rs.
- The causes attached by `with_context` are folded into the kind. `Utf8Error` and the I/O error are not kept; only their kind is kept, and `ParseIntError` becomes its `IntErrorKind`. These are Leaf errors in the model.
- CatalogNew: the reader is the byte stream it yields. The only I/O error is running out of bytes (UnexpectedEof). Other `std::io` failures and the reader kept in the catalog are not modelled.
- ParseDataNew: the regex's `\d` also matches non-ASCII Unicode digits. These are not modelled; a later `parse::<usize>` would panic on them anyway.
- `parts.get(0).ok_or(InvalidHeader)` in `parse_ddf` can never fail, because splitting always yields at least one part. It is not modelled as a branch.
- Format controls call `ParseData::from_str` while data_parser.rs defines the function as `ParseData::new`. The model uses the one function, ParseDataNew.
- The test of `parse_array_descriptors` on twelve names (catalog.rs:422-432) is not restated as an example lemma, because of its proof cost. Its behaviour is covered by ParseArrayDescriptors and ArrayDescriptorsRoundTrip.
- The integration test that opens a `CATALOG.031` file (tests/catalog_tests.rs) reads the file system and is not modelled.
- `parse_to_string` (catalog.rs:139-143) is the standard library's `from_utf8` followed by a copy; the model keeps the bytes and states the check as the predicate ValidUtf8 (well-formed UTF-8 as RFC 3629 defines it, which `from_utf8` follows), so Scalars.ParseToString has no contract of its own beyond that predicate.
- UsizeFromStr: `usize` is taken to be 64 bits wide (UsizeMax is 2^64 - 1), and a lone "+" is refused as InvalidDigit, as current Rust standard libraries do (older ones reported Empty). The source pins neither the target width nor the toolchain.
- ParseToUsize: inherits both choices of UsizeFromStr: which values overflow assumes a 64-bit target, and "ParseIntError(Empty) exactly on empty input" holds for current toolchains only.
- ParseDdr uses the specification function DecodeDirectory rather than the method ParseDirectory, because functions cannot call methods; ParseDirectory is proved to return the same result.
