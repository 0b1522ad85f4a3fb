/** `handleParse` of index.tsx: find the `application/dicom` part of a
    pasted multipart body, decode it, and list the tags of a fixed local
    dictionary that the decoded element map holds. */
module IndexPage {
  import opened Options
  import opened Int32Bytes
  import opened DicomDataSet
  import opened Multipart

  const DicomContentType := "application/dicom"
  const GenericError := "Error parsing DICOM data. Please check your input and try again."

  /** The local `dicomDictionary`, in declaration order (the order `for ... in`
      visits its keys, none of which is an array index). */
  const DicomDictionary: seq<(string, string)> := [
    ("00100010", "Patient's Name"),
    ("00100020", "Patient ID"),
    ("00100030", "Patient's Birth Date"),
    ("00100040", "Patient's Sex"),
    ("00080060", "Modality"),
    ("00080070", "Manufacturer"),
    ("00080090", "Referring Physician's Name"),
    ("00181000", "Device Serial Number"),
    ("00181020", "Software Versions"),
    ("0020000D", "Study Instance UID"),
    ("0020000E", "Series Instance UID"),
    ("00080018", "SOP Instance UID")
  ]

  /** The page's own state: `error` and `parsedData`. */
  datatype PageState = PageState(error: string, records: seq<Record>)

  /** `parts.find(part => part.contentType === 'application/dicom')`. */
  function FindDicomPart(parts: seq<Part>): (r: Option<Part>)
    ensures r.None? <==> forall j :: 0 <= j < |parts| ==> parts[j].contentType != Some(DicomContentType)
    ensures r.Some? ==> exists j :: 0 <= j < |parts| && parts[j] == r.value
                                 && r.value.contentType == Some(DicomContentType)
                                 && forall k :: 0 <= k < j ==> parts[k].contentType != Some(DicomContentType)
  {
    if parts == [] then None
    else if parts[0].contentType == Some(DicomContentType) then Some(parts[0])
    else
      var r := FindDicomPart(parts[1..]);
      assert forall j :: 1 <= j < |parts| ==> parts[j] == parts[1..][j - 1];
      r
  }

  /** `dataSet.elements[key]`: the element of the first entry with that key,
      `None` when there is none or its value is falsy. */
  function ElementFor(entries: seq<Entry>, key: string): (e: Option<Element>)
    ensures (forall i :: 0 <= i < |entries| ==> entries[i].key != key) ==> e.None?
    ensures forall i :: (0 <= i < |entries| && entries[i].key == key && forall k :: 0 <= k < i ==> entries[k].key != key)
                        ==> e == entries[i].element
  {
    if entries == [] then None
    else if entries[0].key == key then entries[0].element
    else
      var e := ElementFor(entries[1..], key);
      assert forall i :: 1 <= i < |entries| ==> entries[i] == entries[1..][i - 1];
      e
  }

  /** `dataSet.string(tag)` found for `tag` and throws. */
  predicate ExtractionThrows(entries: seq<Entry>, tag: string)
  {
    ElementFor(entries, tag).Some? && ElementFor(entries, tag).value.extraction.Throws?
  }

  /** `value || 'N/A'` for an extraction that did not throw. */
  function TextValue(extraction: Extraction): (value: string)
    requires !extraction.Throws?
    ensures value != ""
    ensures extraction.Text? && extraction.text != "" ==> value == extraction.text
    ensures extraction.Missing? || extraction == Text("") ==> value == EmptyValue
  {
    match extraction
    case Text(s) => if s == "" then EmptyValue else s
    case Missing => EmptyValue
  }

  /** Number of dictionary tags whose element is present and truthy. */
  function FoundCount(dictionary: seq<(string, string)>, entries: seq<Entry>): nat
  {
    if dictionary == [] then 0
    else (if ElementFor(entries, dictionary[0].0).Some? then 1 else 0) + FoundCount(dictionary[1..], entries)
  }

  /** The `for (let tag in dicomDictionary)` loop. A found tag yields the
      record `{tag, name, value || 'N/A'}`, with the dictionary key as the
      tag; a throwing extraction is not caught here and fails the whole
      parse (`None`). */
  function ProjectDictionary(dictionary: seq<(string, string)>, entries: seq<Entry>): (r: Option<seq<Record>>)
    ensures r.None? <==> exists i :: 0 <= i < |dictionary| && ExtractionThrows(entries, dictionary[i].0)
    ensures r.Some? ==> |r.value| == FoundCount(dictionary, entries)
    ensures r.Some? ==> forall j :: 0 <= j < |r.value| ==>
                          (r.value[j].tag, r.value[j].name) in dictionary && r.value[j].value != ""
  {
    if dictionary == [] then Some([])
    else
      var (tag, name) := dictionary[0];
      var rest := ProjectDictionary(dictionary[1..], entries);
      assert forall i :: 1 <= i < |dictionary| ==> dictionary[i] == dictionary[1..][i - 1];
      match ElementFor(entries, tag)
      case None => rest
      case Some(element) =>
        if element.extraction.Throws? || rest.None? then None
        else Some([Record(tag, name, TextValue(element.extraction))] + rest.value)
  }

  /** The found tag at dictionary index `i` yields the record at position
      "number of found tags before `i`", carrying the dictionary's key and
      name verbatim. With the length law this lists the found tags in
      dictionary order, one record each. */
  lemma {:induction false} ProjectDictionaryCorrespondence(dictionary: seq<(string, string)>, entries: seq<Entry>, i: nat)
    requires i < |dictionary| && ElementFor(entries, dictionary[i].0).Some?
    requires ProjectDictionary(dictionary, entries).Some?
    ensures var r := ProjectDictionary(dictionary, entries).value;
            var e := ElementFor(entries, dictionary[i].0).value;
            && FoundCount(dictionary[..i], entries) < |r|
            && !e.extraction.Throws?
            && r[FoundCount(dictionary[..i], entries)] == Record(dictionary[i].0, dictionary[i].1, TextValue(e.extraction))
  {
    var r := ProjectDictionary(dictionary, entries).value;
    if i == 0 {
      assert dictionary[..0] == [];
    } else {
      var rest := dictionary[1..];
      ProjectDictionaryCorrespondence(rest, entries, i - 1);
      assert dictionary[..i][1..] == rest[..i - 1];
      assert dictionary[..i][0] == dictionary[0];
      var head := if ElementFor(entries, dictionary[0].0).Some? then 1 else 0;
      assert FoundCount(dictionary[..i], entries) == head + FoundCount(rest[..i - 1], entries);
    }
  }

  /** The object literal's shape: twelve properties with distinct keys, each
      an eight-digit upper-case hexadecimal tag with a non-empty name. */
  lemma DicomDictionaryIsWellFormed()
    ensures |DicomDictionary| == 12
    ensures forall i :: 0 <= i < |DicomDictionary| ==> IsTag(DicomDictionary[i].0) && DicomDictionary[i].1 != ""
    ensures forall i, j :: 0 <= i < j < |DicomDictionary| ==> DicomDictionary[i].0 != DicomDictionary[j].0
  {
  }

  /** The decoder's keys carry a one-character marker before the eight hex
      digits (the util and SPA pipelines strip it), while every key of this
      dictionary is a bare tag. A decoder whose keys all carry an `x` marker
      therefore matches no dictionary tag, and the table stays empty. */
  lemma MarkedKeysMatchNothing(entries: seq<Entry>)
    requires forall i :: 0 <= i < |entries| ==> |entries[i].key| > 0 && entries[i].key[0] == 'x'
    ensures ProjectDictionary(DicomDictionary, entries) == Some([])
  {
    DicomDictionaryIsWellFormed();
    forall i, d | 0 <= i < |entries| && 0 <= d < |DicomDictionary|
      ensures entries[i].key != DicomDictionary[d].0
    {
      assert IsUpperHexDigit(DicomDictionary[d].0[0]);
    }
    NoKeyMatchesNothing(DicomDictionary, entries);
  }

  /** A dictionary and an element map with no key in common give an empty
      table. */
  lemma {:induction false} NoKeyMatchesNothing(dictionary: seq<(string, string)>, entries: seq<Entry>)
    requires forall i, d :: 0 <= i < |entries| && 0 <= d < |dictionary| ==> entries[i].key != dictionary[d].0
    ensures ProjectDictionary(dictionary, entries) == Some([])
  {
    if dictionary != [] {
      assert forall d :: 1 <= d < |dictionary| ==> dictionary[1..][d - 1] == dictionary[d];
      NoKeyMatchesNothing(dictionary[1..], entries);
    }
  }

  /** Everything `handleParse` does after the reset of `error`; `None` when
      anything in it throws. The base64 decoding is the `base64` input. */
  function Run(input: string, base64: string -> seq<Byte>, decode: Decoder): (r: Option<seq<Record>>)
    ensures ParseMultipartData(input).None? ==> r.None?
    ensures ParseMultipartData(input).Some? && FindDicomPart(ParseMultipartData(input).value).None? ==> r.None?
    ensures r.Some? ==> forall j :: 0 <= j < |r.value| ==>
                          (r.value[j].tag, r.value[j].name) in DicomDictionary && r.value[j].value != ""
  {
    match ParseMultipartData(input)
    case None => None
    case Some(parts) => RunParts(parts, base64, decode)
  }

  /** What follows `parseMultipartData`: find the DICOM part, decode it and
      project the dictionary; `None` when anything throws. */
  function RunParts(parts: seq<Part>, base64: string -> seq<Byte>, decode: Decoder): (r: Option<seq<Record>>)
    ensures FindDicomPart(parts).None? ==> r.None?
    ensures r.Some? ==> forall j :: 0 <= j < |r.value| ==>
                          (r.value[j].tag, r.value[j].name) in DicomDictionary && r.value[j].value != ""
  {
    match FindDicomPart(parts)
    case None => None
    case Some(part) =>
      match decode(base64(part.content))
      case Threw(_) => None
      case Returned(None) => None
      case Returned(Some(DataSet(None))) => None
      case Returned(Some(DataSet(Some(entries)))) => ProjectDictionary(DicomDictionary, entries)
  }

  /** Once the DICOM part is found, its decoding decides: a decoder throw, a
      falsy data set or a missing element map fails, as does a throwing
      extraction of any dictionary tag; otherwise the result is the
      dictionary projection of the element map. */
  lemma DecodedPartDecides(parts: seq<Part>, base64: string -> seq<Byte>, decode: Decoder)
    requires FindDicomPart(parts).Some?
    ensures var out := decode(base64(FindDicomPart(parts).value.content));
            var r := RunParts(parts, base64, decode);
            && (out.Threw? || out == Returned(None) || out == Returned(Some(DataSet(None))) ==> r.None?)
            && (out.Returned? && out.dataSet.Some? && out.dataSet.value.elements.Some? ==>
                  var entries := out.dataSet.value.elements.value;
                  && (r.Some? <==> forall i :: 0 <= i < |DicomDictionary| ==> !ExtractionThrows(entries, DicomDictionary[i].0))
                  && (r.Some? ==> r.value == ProjectDictionary(DicomDictionary, entries).value))
  {
    var out := decode(base64(FindDicomPart(parts).value.content));
    if out.Returned? && out.dataSet.Some? && out.dataSet.value.elements.Some? {
      var entries := out.dataSet.value.elements.value;
      var projected := ProjectDictionary(DicomDictionary, entries);
      assert RunParts(parts, base64, decode) == projected;
      assert projected.None? <==> exists i :: 0 <= i < |DicomDictionary| && ExtractionThrows(entries, DicomDictionary[i].0);
    }
  }

  /** `handleParse()`: on success the records replace the table and the
      error is cleared; on any failure the one generic message is shown and
      the previous records stay, since only `error` was reset. */
  function HandleParse(state: PageState, input: string, base64: string -> seq<Byte>, decode: Decoder): (next: PageState)
    ensures next.error == "" || next.error == GenericError
    ensures next.error == "" <==> Run(input, base64, decode).Some?
    ensures next.error != "" ==> next.records == state.records
    ensures next.error == "" ==> next.records == Run(input, base64, decode).value
    ensures next.error == "" ==> forall j :: 0 <= j < |next.records| ==>
              (next.records[j].tag, next.records[j].name) in DicomDictionary && next.records[j].value != ""
    ensures ParseMultipartData(input).None? ==> next == PageState(GenericError, state.records)
  {
    match Run(input, base64, decode)
    case None => PageState(GenericError, state.records)
    case Some(records) => PageState("", records)
  }

  /** A blank first line makes the boundary empty, and then no part can be
      found: the parse always fails. */
  lemma EmptyBoundaryFails(state: PageState, input: string, base64: string -> seq<Byte>, decode: Decoder)
    requires Boundary(input) == []
    ensures HandleParse(state, input, base64, decode) == PageState(GenericError, state.records)
  {
    EmptyBoundaryYieldsNothing(input);
  }
}
