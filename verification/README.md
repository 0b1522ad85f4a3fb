# DICOM inspection tool — a Dafny model of its parsing core

The tool shows the tags of a DICOM object as a table of tag, name and value
records. It has two entry points, both modelled here.

- **Int32 pipeline.** This is `parse` in components/dicom-parser.util.tsx and
  the identical `handleParse` in dicom/components/dicom-parser-spa.tsx. Each
  pasted 32-bit sample is turned back into its four little-endian bytes. The
  buffer goes to the DICOM decoder, and every truthy element of the decoded map
  is projected to a record:
  - the tag is the key without its marker character, upper-cased;
  - the name comes from the page's dictionary, or is "Unknown";
  - the value is the element's string, "N/A", "Sequence" for `SQ`, or "Unable
    to read value" when extraction throws.

  A run leaves exactly one of three outcomes: an error, a warning, or a
  non-empty record list. The two files differ only in their dictionaries, so
  `TagProjection.Pipeline` takes the dictionary as a parameter.
  `DicomParserUtil.Parse` and `DicomParserSpa.HandleParse` instantiate it.
- **Multipart page.** This is `parseMultipartData` and `handleParse` in
  index.tsx. The first line of the pasted body, trimmed, is the boundary. The
  body is split on it and the outer pieces are dropped. Each part is cut at its
  first blank line, and a `Content-Type` header is taken from it by the regular
  expression. The first `application/dicom` part is base64-decoded and parsed.
  The records are then the tags of a fixed 12-entry dictionary that the element
  map holds. Any failure shows one generic error and keeps the previous
  records.

Modules:

| module | file | contents |
|---|---|---|
| `Options` | options.dfy | `Option` and the all-or-nothing `MapAll` |
| `Int32Bytes` | int32_bytes.dfy | 32-bit two's complement, little-endian bytes, buffer reconstruction and its inverse |
| `Text` | text.dfy | the JavaScript string operations used: `toUpperCase`, `trim`, `split` with a string separator, and the search for the separator inside it |
| `DicomDataSet` | dicom_data_set.dfy | what the decoder returns: outcome, data set, element map, extraction result; the display record |
| `TagProjection` | tag_projection.dfy | the shared Int32 pipeline, generic in the dictionary |
| `DicomParserUtil` | dicom_parser_util.dfy | the 45-entry util dictionary and `parse` |
| `DicomParserSpa` | dicom_parser_spa.dfy | the 26-entry SPA dictionary and `handleParse` |
| `Multipart` | multipart.dfy | `parseMultipartData` |
| `IndexPage` | index_page.dfy | the index page's dictionary and `handleParse` |

The DICOM decoder (`dicomParser.parseDicom` together with `dataSet.string`) is
a parameter of type `seq<Byte> -> DecodeOutcome`. Its outcome is one of:
- a throw, of an `Error` with a message or of a non-`Error` value;
- a falsy data set;
- a data set whose `elements` is absent or is an ordered sequence of entries.

An entry has a key and an element, or no element when its value is falsy. An
element has a VR and the outcome of `dataSet.string` on its key: a string,
`undefined`, or a throw. Base64 decoding in index.tsx is likewise a parameter
of type `string -> seq<Byte>`. Results that the code writes through React
setters are returned as values:
- `TagProjection.Display` holds error, warning and records;
- `IndexPage.PageState` holds error and records.

## Model

| member | source | states |
|---|---|---|
| Int32Bytes.Word | components/dicom-parser.util.tsx:132 | the 32-bit pattern of a sample is a value below 2^32 congruent to it modulo 2^32 |
| Int32Bytes.EncodeInt32 | components/dicom-parser.util.tsx:132 | the four bytes are octets 0..3 of the sample's two's-complement pattern, lowest first, and read back little-endian give that pattern |
| Int32Bytes.DecodeInt32 | components/dicom-parser.util.tsx:132 | four bytes read little-endian as a signed 32-bit value have that pattern |
| Int32Bytes.DecodeEncode | components/dicom-parser.util.tsx:132 | decoding the four bytes of a sample gives the sample back |
| Int32Bytes.EncodeDecode | components/dicom-parser.util.tsx:132 | encoding the sample read from four bytes gives the same bytes; so sample-to-bytes is a bijection |
| Int32Bytes.DigitsUnique | components/dicom-parser.util.tsx:132 | two 4-byte sequences with the same little-endian value are equal |
| Int32Bytes.Reconstruct | components/dicom-parser.util.tsx:130-134 | the buffer has 4 bytes per sample, and the slice at 4*i is the encoding of sample i |
| Int32Bytes.ByteLayout | components/dicom-parser.util.tsx:130-134 | byte 4*i+k of the buffer is octet k of sample i |
| Int32Bytes.ReconstructAppend | components/dicom-parser.util.tsx:131-134 | appending a sample appends its four bytes and leaves the earlier bytes alone |
| Int32Bytes.Deconstruct | components/dicom-parser.util.tsx:130-134 | a buffer whose length is a multiple of 4 read back as samples: one per 4 bytes, each with the pattern of its slice |
| Int32Bytes.DeconstructReconstruct | components/dicom-parser.util.tsx:130-134 | reading the reconstructed buffer back gives the samples: no information is lost |
| Int32Bytes.ReconstructDeconstruct | components/dicom-parser.util.tsx:130-134 | every buffer whose length is a multiple of 4 is the reconstruction of some samples |
| Int32Bytes.ReconstructBuffer | dicom/components/dicom-parser-spa.tsx:79-83 | the loop that fills the zeroed buffer yields 4*n bytes that read back as the input, with byte 4*i+k equal to octet k of sample i |
| Int32Bytes.ReconstructExamples | components/dicom-parser.util.tsx:130-134 | the empty input gives an empty buffer; 1, -1 and 0x12345678 give 01 00 00 00, FF FF FF FF and 78 56 34 12 |
| Text.UpperChar | components/dicom-parser.util.tsx:163 | the result is never an ASCII lower-case letter; a lower-case letter moves down by 0x20 and every other character is kept |
| Text.ToUpper | components/dicom-parser.util.tsx:163 | same length, upper-cased character by character, no lower-case letter left |
| Text.ToUpperIdempotent | components/dicom-parser.util.tsx:163 | upper-casing twice equals upper-casing once |
| Text.TrimStart | index.tsx:33 | the result is a suffix of the input, everything cut is white space, and it does not start with white space |
| Text.TrimEnd | index.tsx:33 | the result is a prefix of the input, everything cut is white space, and it does not end with white space |
| Text.Trim | index.tsx:33 | the result is a slice of the input with only white space cut on either side, and its ends are not white space |
| Text.TrimAvoids | index.tsx:33 | trimming never introduces a character: one absent from the input is absent from the result |
| Text.TrimIdempotent | index.tsx:38 | trimming a trimmed string changes nothing |
| Text.IndexOf | index.tsx:36 | the first occurrence of a pattern at or after a position, or none at all |
| Text.Split | index.tsx:34 | a non-empty separator gives at least one piece; the empty separator gives the single characters |
| Text.SplitPiecesAreFree | index.tsx:34 | no piece of a split contains the separator |
| Text.SplitIsSingle | index.tsx:36 | a split has exactly one piece if and only if the separator does not occur |
| Text.JoinSplit | index.tsx:34 | joining the pieces with the separator gives the original string back |
| Text.SplitUnfold | index.tsx:36 | a split is the part before the first occurrence of the separator followed by the split of what comes after it, or the whole string when the separator does not occur |
| Text.BeforeFirstOccurrence | index.tsx:36 | the text before the first occurrence of a pattern does not contain it |
| Text.SplitFirst | index.tsx:36 | the first piece of a split is the string up to the first occurrence of the separator, or the whole string |
| Text.SplitSecond | index.tsx:36 | after a first occurrence at i there are at least two pieces; piece 0 is the text before i and piece 1 is the first piece of the split of what follows the separator |
| Text.SplitWithout | index.tsx:36 | when the search finds no separator, the string holds none and the split is the string alone |
| Text.SplitWith | index.tsx:36 | when the search finds a separator, piece 0 ends exactly at the first occurrence, and piece 1 runs from just after it up to the next occurrence or the end |
| Text.SplitWithFree | index.tsx:36 | when the search finds a separator, the string is not free of it and neither of the first two pieces holds it |
| Text.FirstTwoPieces | index.tsx:36 | destructuring `[headers, content]` from a split on a non-empty separator: the second is absent if and only if the separator does not occur, and then the first is the whole string; otherwise the first ends exactly at the first occurrence and the second runs from just after it up to the next occurrence or the end; neither holds the separator |
| TagProjection.FormatTag | components/dicom-parser.util.tsx:163 | the tag is one character shorter than the key, and character i is key character i+1 upper-cased |
| TagProjection.FormatTagOfHexKey | components/dicom-parser.util.tsx:163 | an `x` plus eight hex digits becomes eight upper-case hex digits, a well-formed tag |
| TagProjection.FormatTagExample | components/dicom-parser.util.tsx:163 | "x0020000d" becomes "0020000D" |
| TagProjection.LookupName | components/dicom-parser.util.tsx:178 | a non-empty dictionary name is used as is; a missing tag or an empty name gives "Unknown", the logical-or fallback; the name is never empty |
| TagProjection.ElementValue | components/dicom-parser.util.tsx:165-175 | VR `SQ` gives "Sequence" without extraction; otherwise the string, "N/A" for empty or undefined, "Unable to read value" for a throw; never empty |
| TagProjection.RecordFor | components/dicom-parser.util.tsx:163-180 | the record of one entry: its tag is the key without its first character, upper-cased; its name is the tag's non-empty dictionary name, else "Unknown"; its value is never empty, "Sequence" for `SQ` and "Unable to read value" when extraction throws |
| TagProjection.PresentCount | components/dicom-parser.util.tsx:162 | the number of truthy entries is at most the number of entries |
| TagProjection.Project | components/dicom-parser.util.tsx:159-182 | one record per truthy entry, each with a non-empty name and value |
| TagProjection.ProjectCorrespondence | components/dicom-parser.util.tsx:160-181 | the truthy entry i gives the record at the rank "number of truthy entries before i", built from its key and element: records follow the map's order |
| TagProjection.WithFailingExtraction | components/dicom-parser.util.tsx:169-174 | the entries with only entry i's extraction made to throw |
| TagProjection.FailingExtractionReplacesOneRecord | components/dicom-parser.util.tsx:169-174 | when one element's extraction throws, the record list is the old one with exactly that element's record replaced |
| TagProjection.ExtractionFailureIsIsolated | components/dicom-parser.util.tsx:169-180 | that replaced record keeps its tag and name and reads "Unable to read value" ("Sequence" for `SQ`); every other record is unchanged |
| TagProjection.ProjectNames | components/dicom-parser.util.tsx:176-180 | every record's name is the dictionary lookup of its own tag |
| TagProjection.ProjectOutcome | components/dicom-parser.util.tsx:136-190 | a decoder throw gives "Error parsing DICOM data: Failed to parse DICOM data: " plus the message, or "Unknown error" for a non-Error throw; a falsy data set gives the undefined-dataset error; an absent or empty element map gives the header-only warning; no truthy entry gives the no-tags warning; otherwise the projected records; no error exactly when a data set came back; always exactly one outcome |
| TagProjection.Pipeline | components/dicom-parser.util.tsx:117-198 | a null input gives the "No input data available" error; otherwise the decoder sees the reconstructed buffer; exactly one outcome; every name is the lookup of its tag and is "Unknown" or a dictionary entry |
| TagProjection.DecoderSeesOnlyTheBuffer | components/dicom-parser.util.tsx:122-138 | two decoders that agree on the reconstructed buffer give the same display state, and any two give the same state for a null input, which never reaches the decoder |
| TagProjection.ProjectRenames | components/dicom-parser.util.tsx:159-182 | projecting with another dictionary gives as many records, each the same record with its name looked up in the other dictionary |
| TagProjection.SameDecoderAgreesUpToNames | components/dicom-parser.util.tsx:117-198 | two pipelines with different dictionaries give the same error, the same warning and as many records, each renamed from the other's |
| DicomParserUtil.Parse | components/dicom-parser.util.tsx:108-199 | exactly one of error, warning and records; a null input gives "Error parsing DICOM data: No input data available" |
| DicomParserUtil.SimplifiedDictionary | components/dicom-parser.util.tsx:2-51 | no name is empty or "Unknown", so the fallback never hides a known tag and a found name is never mistaken for a missing one |
| DicomParserUtil.NameExamples | components/dicom-parser.util.tsx:41-48 | 00020010 is "Transfer Syntax UID", 00700041 is the literal entry "unknown", and 00181000 (absent) is "Unknown" |
| DicomParserSpa.HandleParse | dicom/components/dicom-parser-spa.tsx:65-141 | exactly one of error, warning and records; a null input gives "Error parsing DICOM data: No input data available" |
| DicomParserSpa.SimplifiedDictionary | dicom/components/dicom-parser-spa.tsx:12-40 | every tag it names is also in the util dictionary, under the same name |
| DicomParserSpa.NamesDifferExactlyOnExtraTags | dicom/components/dicom-parser-spa.tsx:124 | the SPA and util pipelines name a tag differently if and only if only the util dictionary has it |
| DicomParserSpa.AgreesWithUtilExceptNames | dicom/components/dicom-parser-spa.tsx:65-141 | the SPA page and the util parse give the same error, warning and record tags and values; a record's name differs if and only if only the util dictionary knows its tag |
| DicomParserSpa.NameExample | dicom/components/dicom-parser-spa.tsx:124 | 00020010 is "Unknown" in the SPA and "Transfer Syntax UID" in the util |
| Options.MapAll | index.tsx:35-39 | an all-or-nothing map fails if and only if some element fails; otherwise it gives one result per element, in order |
| Multipart.FirstLine | index.tsx:33 | the first line is a prefix without a line feed, followed by a line feed or the end of the data |
| Multipart.Boundary | index.tsx:33 | the boundary has no line feed and neither starts nor ends with white space |
| Multipart.Segments | index.tsx:34 | `slice(1, -1)`: with at most two pieces there is no segment; otherwise two fewer segments than pieces, segment j being piece j+1 |
| Multipart.SegmentsLieBetweenBoundaries | index.tsx:34 | no part contains the boundary; with more than two pieces the data is the preamble, the boundary, the parts joined by the boundary, the boundary and the epilogue |
| Multipart.FirstContentTypeMatch | index.tsx:37 | the leftmost position at or after a point where the regular expression matches, or none |
| Multipart.LineEnd | index.tsx:37 | the end of the run of non-terminator characters from a point |
| Multipart.ContentType | index.tsx:37 | absent if and only if the regular expression matches nowhere; otherwise the non-empty rest of the line after the leftmost match |
| Multipart.ParsePart | index.tsx:35-39 | parsing a part fails if and only if it has no blank line; otherwise the content type is the regular expression's capture on the text before the first blank line, and the content is the trimmed text from after it up to the next blank line or the end |
| Multipart.ParseParts | index.tsx:35-39 | the parse fails if and only if some part fails; otherwise it gives one part per segment, in order |
| Multipart.ParseMultipartData | index.tsx:31-40 | throws if and only if some segment has no blank line; otherwise one part per segment, in order, each the parse of its segment |
| Multipart.EmptyBoundaryYieldsNothing | index.tsx:33-38 | a blank first line gives no part at all, or a failed parse |
| IndexPage.FindDicomPart | index.tsx:46 | the first part whose content type is "application/dicom", and none if and only if no part has it |
| IndexPage.ElementFor | index.tsx:57 | the element of the first entry with that key, and none when no entry has it |
| IndexPage.TextValue | index.tsx:59-63 | a non-empty extracted string as is, and "N/A" exactly for an empty or undefined one; never empty |
| IndexPage.DicomDictionaryIsWellFormed | index.tsx:10-24 | twelve entries with distinct keys, each an eight-digit upper-case hexadecimal tag with a non-empty name |
| IndexPage.ProjectDictionary | index.tsx:55-66 | fails if and only if the extraction of some found dictionary tag throws; otherwise one record per found tag, each a dictionary pair with a non-empty value |
| IndexPage.ProjectDictionaryCorrespondence | index.tsx:56-65 | the found tag i gives the record at rank "number of found tags before i", with the dictionary key and name as written: records follow the dictionary's order |
| IndexPage.MarkedKeysMatchNothing | index.tsx:56-58 | when every decoder key starts with the `x` marker, no dictionary tag (all hex digits) is found and the table is empty |
| IndexPage.NoKeyMatchesNothing | index.tsx:56-58 | a dictionary and an element map with no key in common give an empty record list |
| IndexPage.Run | index.tsx:43-68 | a multipart parse that throws, or no DICOM part, fails; every record is a dictionary pair with a non-empty value |
| IndexPage.RunParts | index.tsx:46-66 | with no DICOM part among the parsed parts the run fails; every record is a dictionary pair with a non-empty value |
| IndexPage.HandleParse | index.tsx:42-73 | the error is cleared exactly when the run succeeds, and is otherwise the one generic message; on error the previous records stay; on success the table is the run's records, each a dictionary pair |
| IndexPage.DecodedPartDecides | index.tsx:52-66 | once the DICOM part is found, a decoder throw, a falsy data set or an absent element map fails; otherwise the run succeeds exactly when no found dictionary tag's extraction throws, and then yields the dictionary projection |
| IndexPage.EmptyBoundaryFails | index.tsx:33-50 | with a blank first line the page always shows the generic error and keeps its records |

## Left out

- The React components, their rendering and the JSON loading in
  `handleLoadJson` are not modelled. `JSON.parse` and the coercion of values to
  `Int32Array` entries are left out; the model starts from a sequence of
  32-bit samples, or no input.
- The DICOM decoder and the base64 decoder are parameters, not models. The
  library's byte format is outside the model.
- Host byte order: `new Int32Array([value]).buffer` has the platform's byte
  order. The model fixes it to little-endian, which is what every platform the
  page runs on uses.
- The `console.log` and `console.error` calls are left out.
- `dicomDictionary` in components/dicom-parser.util.tsx (lines 53-106) is
  exported but never used by `parse`, so it is not modelled. The `vr` column of
  both simplified dictionaries is never read and is dropped.
- Text.ToUpper: `toUpperCase` is modelled for ASCII letters only, because tags
  are hexadecimal. Non-ASCII case mapping, such as "ß" becoming "SS", is not
  modelled.
- Text.Split: strings are sequences of characters, not of UTF-16 code units.
  So `split('')` on text outside the basic plane differs from JavaScript. The
  optional `limit` argument of `split` is not used by the code and is not
  modelled.
- The element map is a sequence of entries in `for ... in` order. JavaScript
  visits string keys that are not array indices in insertion order. Keys are
  assumed distinct; with duplicates, index.tsx reads the first entry.
- HandleParse is a pure function of its state and input, so running a parse
  twice on the same state gives the same state. No separate lemma states this.
- DicomParserUtil.Parse, DicomParserSpa.HandleParse: the per-page name law
  ("Unknown" or an entry of that page's dictionary) is proved once, generically,
  by `TagProjection.Pipeline`. It is not repeated in these two contracts.
- Text.Split: the function's own contract is small. Where the cuts fall is
  stated by `SplitUnfold`: together with the contract of `IndexOf`, it puts
  the first cut at the leftmost occurrence and the rest after it. The other
  properties are stated by `SplitPiecesAreFree`, `SplitIsSingle` and
  `JoinSplit`.

Behaviour of the code worth noting:
- A decoder that returns a falsy data set is an error with the message "DICOM
  parser returned undefined dataset".
- An absent `elements` field gives the same header-only warning as an empty
  map.
- index.tsx reports every failure with one generic message and leaves the old
  records on screen. Only the error is reset, not the records.
- index.tsx looks up its dictionary keys verbatim in the element map. The
  other two pages strip a marker character from the decoder's keys first.
  Against a decoder whose keys carry that marker, index.tsx finds no tag (see
  `IndexPage.MarkedKeysMatchNothing`).
