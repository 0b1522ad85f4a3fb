/** The parse pipeline shared by `parse` in components/dicom-parser.util.tsx
    and `handleParse` in dicom/components/dicom-parser-spa.tsx. The two are
    the same code over different name dictionaries, so the pipeline takes the
    dictionary as a parameter. */
module TagProjection {
  import opened Options
  import opened Int32Bytes
  import opened Text
  import opened DicomDataSet

  const SequenceVr := "SQ"
  const SequenceValue := "Sequence"
  const UnreadableValue := "Unable to read value"
  const UnknownName := "Unknown"

  const ErrorPrefix := "Error parsing DICOM data: "
  const NoInputMessage := "No input data available"
  const DecoderFailedPrefix := "Failed to parse DICOM data: "
  const UnknownErrorMessage := "Unknown error"
  const UndefinedDataSetMessage := "DICOM parser returned undefined dataset"
  const HeaderOnlyWarning := "The DICOM data contains only header information. No DICOM tags are available."
  const NoTagsWarning := "No recognizable DICOM tags were found in the parsed data."

  /** A name table: `dictionary(tag)` is the name the table's object
      literal gives for the property `tag`, or `None` when it has no such
      property. */
  type Dictionary = string -> Option<string>

  /** The three pieces of display state a parse sets: `error`, `warning` and
      the parsed records. */
  datatype Display = Display(error: string, warning: string, records: seq<Record>)

  /** Exactly one of error, warning and a non-empty record list is set. */
  predicate ExactlyOneOutcome(d: Display)
  {
    || (d.error != "" && d.warning == "" && d.records == [])
    || (d.error == "" && d.warning != "" && d.records == [])
    || (d.error == "" && d.warning == "" && d.records != [])
  }

  /** The state after the reset and an error caught by the outer `catch`. */
  function Failed(message: string): Display
  {
    Display(ErrorPrefix + message, "", [])
  }

  /** The state after the reset and a warning. */
  function Warned(warning: string): Display
  {
    Display("", warning, [])
  }

  /** `key.slice(1).toUpperCase()`: the decoder's key without its leading
      marker character, upper-cased. */
  function FormatTag(key: string): (tag: string)
    ensures |tag| == if key == [] then 0 else |key| - 1
    ensures forall i :: 0 <= i < |tag| ==> tag[i] == UpperChar(key[i + 1])
  {
    ToUpper(if key == [] then key else key[1..])
  }

  predicate IsHexDigit(c: char)
  {
    '0' <= c <= '9' || 'a' <= c <= 'f' || 'A' <= c <= 'F'
  }

  /** A decoder key `x` + eight hexadecimal digits becomes an eight-digit
      upper-case hexadecimal tag that names the same group and element. */
  lemma FormatTagOfHexKey(key: string)
    requires |key| == 9 && forall i :: 1 <= i < 9 ==> IsHexDigit(key[i])
    ensures |FormatTag(key)| == 8
    ensures forall i :: 0 <= i < 8 ==> IsUpperHexDigit(FormatTag(key)[i])
    ensures FormatTag(key) == ToUpper(key[1..])
    ensures IsTag(FormatTag(key))
  {
    var tag := FormatTag(key);
    forall i | 0 <= i < 8 ensures IsUpperHexDigit(tag[i]) {
      assert tag[i] == UpperChar(key[i + 1]);
    }
  }

  lemma FormatTagExample()
    ensures FormatTag("x0020000d") == "0020000D"
  {
  }

  /** `dictionary[tag]?.name || "Unknown"`: the dictionary's name for the
      tag, verbatim, or "Unknown" when it has none (or an empty one). */
  function LookupName(dictionary: Dictionary, tag: string): (name: string)
    ensures dictionary(tag).Some? && dictionary(tag).value != "" ==> name == dictionary(tag).value
    ensures dictionary(tag).None? ==> name == UnknownName
    ensures dictionary(tag) == Some("") ==> name == UnknownName
    ensures name != ""
  {
    match dictionary(tag)
    case Some(entry) => if entry != "" then entry else UnknownName
    case None => UnknownName
  }

  /** The displayed value of one element: "Sequence" for VR `SQ` without
      extracting, otherwise the extracted string or "N/A" when it is empty or
      undefined, and "Unable to read value" when extraction throws. */
  function ElementValue(element: Element): (value: string)
    ensures value != ""
    ensures element.vr == Some(SequenceVr) ==> value == SequenceValue
    ensures element.vr != Some(SequenceVr) ==>
              match element.extraction
              case Text(s) => value == (if s == "" then EmptyValue else s)
              case Missing => value == EmptyValue
              case Throws => value == UnreadableValue
  {
    if element.vr == Some(SequenceVr) then SequenceValue
    else
      match element.extraction
      case Text(s) => if s == "" then EmptyValue else s
      case Missing => EmptyValue
      case Throws => UnreadableValue
  }

  /** The record for one truthy element: the formatted key as its tag, the
      dictionary's name for that tag (or "Unknown"), and the displayed value. */
  function RecordFor(dictionary: Dictionary, key: string, element: Element): (r: Record)
    ensures |r.tag| == if key == [] then 0 else |key| - 1
    ensures forall i :: 0 <= i < |r.tag| ==> r.tag[i] == UpperChar(key[i + 1])
    ensures dictionary(r.tag).Some? && dictionary(r.tag).value != "" ==> r.name == dictionary(r.tag).value
    ensures dictionary(r.tag).None? || dictionary(r.tag) == Some("") ==> r.name == UnknownName
    ensures r.value != "" && (element.vr == Some(SequenceVr) ==> r.value == SequenceValue)
    ensures element.vr != Some(SequenceVr) && element.extraction == Throws ==> r.value == UnreadableValue
  {
    var tag := FormatTag(key);
    Record(tag, LookupName(dictionary, tag), ElementValue(element))
  }

  /** Number of truthy entries. */
  function PresentCount(entries: seq<Entry>): (n: nat)
    ensures n <= |entries|
  {
    if entries == [] then 0
    else (if entries[0].element.Some? then 1 else 0) + PresentCount(entries[1..])
  }

  /** The `for ... in dataSet.elements` loop: one record per truthy entry, in
      iteration order; a throwing extraction affects only its own record. */
  function Project(dictionary: Dictionary, entries: seq<Entry>): (records: seq<Record>)
    ensures |records| == PresentCount(entries)
    ensures forall j :: 0 <= j < |records| ==> records[j].value != "" && records[j].name != ""
  {
    if entries == [] then []
    else HeadRecords(dictionary, entries[0]) + Project(dictionary, entries[1..])
  }

  /** The records contributed by the first entry: none when it is falsy. */
  function HeadRecords(dictionary: Dictionary, entry: Entry): (r: seq<Record>)
    ensures |r| == if entry.element.Some? then 1 else 0
  {
    match entry.element
    case None => []
    case Some(e) => [RecordFor(dictionary, entry.key, e)]
  }

  lemma ProjectUnfold(dictionary: Dictionary, entries: seq<Entry>)
    requires entries != []
    ensures Project(dictionary, entries) == HeadRecords(dictionary, entries[0]) + Project(dictionary, entries[1..])
    ensures PresentCount(entries) == |HeadRecords(dictionary, entries[0])| + PresentCount(entries[1..])
  {
  }

  /** The truthy entry at index `i` yields the record at position
      "number of truthy entries before `i`". With the length law of `Project`
      this makes records and truthy entries correspond one to one, in order. */
  lemma {:induction false} ProjectCorrespondence(dictionary: Dictionary, entries: seq<Entry>, i: nat)
    requires i < |entries| && entries[i].element.Some?
    ensures PresentCount(entries[..i]) < |Project(dictionary, entries)|
    ensures Project(dictionary, entries)[PresentCount(entries[..i])]
            == RecordFor(dictionary, entries[i].key, entries[i].element.value)
  {
    ProjectUnfold(dictionary, entries);
    var head := HeadRecords(dictionary, entries[0]);
    if i == 0 {
      assert entries[..0] == [];
      assert head == [RecordFor(dictionary, entries[0].key, entries[0].element.value)];
      assert Project(dictionary, entries)[0] == head[0];
    } else {
      var rest := entries[1..];
      var prefix := entries[..i];
      assert rest[i - 1] == entries[i];
      ProjectCorrespondence(dictionary, rest, i - 1);
      assert prefix[1..] == rest[..i - 1];
      assert prefix[0] == entries[0];
      ProjectUnfold(dictionary, prefix);
      var p' := PresentCount(rest[..i - 1]);
      assert PresentCount(prefix) == |head| + p';
      IndexPastHead(head, Project(dictionary, rest), p');
    }
  }

  /** Indexing past a prefix. */
  lemma IndexPastHead<T>(head: seq<T>, tail: seq<T>, k: nat)
    requires k < |tail|
    ensures (head + tail)[|head| + k] == tail[k]
  {
  }

  /** Entry `i` with its extraction replaced by a throw. */
  function WithFailingExtraction(entries: seq<Entry>, i: nat): (failing: seq<Entry>)
    requires i < |entries| && entries[i].element.Some?
    ensures |failing| == |entries|
    ensures forall j :: 0 <= j < |entries| && j != i ==> failing[j] == entries[j]
    ensures failing[i].key == entries[i].key
    ensures failing[i].element == Some(Element(entries[i].element.value.vr, Throws))
  {
    entries[i := Entry(entries[i].key, Some(Element(entries[i].element.value.vr, Throws)))]
  }

  /** Making the extraction of entry `i` throw replaces exactly one record,
      the one at entry `i`'s position, and leaves every other record alone. */
  lemma {:induction false} FailingExtractionReplacesOneRecord(dictionary: Dictionary, entries: seq<Entry>, i: nat)
    requires i < |entries| && entries[i].element.Some?
    ensures PresentCount(entries[..i]) < |Project(dictionary, entries)|
    ensures Project(dictionary, WithFailingExtraction(entries, i))
            == Project(dictionary, entries)[PresentCount(entries[..i]) :=
                 RecordFor(dictionary, entries[i].key, Element(entries[i].element.value.vr, Throws))]
  {
    var failing := WithFailingExtraction(entries, i);
    var rest := entries[1..];
    ProjectUnfold(dictionary, entries);
    ProjectUnfold(dictionary, failing);
    if i == 0 {
      assert entries[..0] == [];
      assert failing[1..] == rest;
      var x := Project(dictionary, rest);
      assert HeadRecords(dictionary, failing[0]) == [FailedRecord(dictionary, entries, 0)];
      assert |HeadRecords(dictionary, entries[0])| == 1;
      ReplaceHead(HeadRecords(dictionary, entries[0]), [FailedRecord(dictionary, entries, 0)], x);
    } else {
      FailingExtractionReplacesOneRecord(dictionary, rest, i - 1);
      assert failing[1..] == WithFailingExtraction(rest, i - 1);
      assert rest[..i - 1] == entries[..i][1..];
      ProjectUnfold(dictionary, entries[..i]);
      var head := HeadRecords(dictionary, entries[0]);
      var p' := PresentCount(rest[..i - 1]);
      assert PresentCount(entries[..i]) == |head| + p';
      var record := FailedRecord(dictionary, entries, i);
      assert record == FailedRecord(dictionary, rest, i - 1);
      var r := Project(dictionary, rest);
      ReplaceInTail(head, r, p', record);
    }
  }

  lemma ReplaceInTail(head: seq<Record>, rest: seq<Record>, p: nat, record: Record)
    requires p < |rest|
    ensures (head + rest)[|head| + p := record] == head + rest[p := record]
  {
  }

  lemma ReplaceHead(head: seq<Record>, head': seq<Record>, rest: seq<Record>)
    requires |head| == 1 && |head'| == 1
    ensures (head + rest)[0 := head'[0]] == head' + rest
  {
  }

  /** The record that replaces entry `i`'s when its extraction throws. */
  function FailedRecord(dictionary: Dictionary, entries: seq<Entry>, i: nat): Record
    requires i < |entries| && entries[i].element.Some?
  {
    RecordFor(dictionary, entries[i].key, Element(entries[i].element.value.vr, Throws))
  }

  /** Error isolation: when the extraction of entry `i` throws, no other
      record changes, its own record keeps its tag and name, and its value
      becomes "Unable to read value" (or stays "Sequence" for VR `SQ`). */
  lemma ExtractionFailureIsIsolated(dictionary: Dictionary, entries: seq<Entry>, i: nat)
    requires i < |entries| && entries[i].element.Some?
    ensures var r := Project(dictionary, entries);
            var r' := Project(dictionary, WithFailingExtraction(entries, i));
            var p := PresentCount(entries[..i]);
            && |r'| == |r| && p < |r|
            && (forall j :: 0 <= j < |r| && j != p ==> r'[j] == r[j])
            && r'[p].tag == r[p].tag && r'[p].name == r[p].name
            && r'[p].value == (if entries[i].element.value.vr == Some(SequenceVr) then SequenceValue else UnreadableValue)
  {
    FailingExtractionReplacesOneRecord(dictionary, entries, i);
    ProjectCorrespondence(dictionary, entries, i);
  }

  /** Every record's name is the dictionary lookup of its own tag. */
  lemma {:induction false} ProjectNames(dictionary: Dictionary, entries: seq<Entry>)
    ensures forall j :: 0 <= j < |Project(dictionary, entries)| ==>
              Project(dictionary, entries)[j].name == LookupName(dictionary, Project(dictionary, entries)[j].tag)
  {
    if entries != [] {
      ProjectUnfold(dictionary, entries);
      ProjectNames(dictionary, entries[1..]);
    }
  }

  /** What the pipeline does with the decoder's outcome: a throw or a falsy
      data set is an error, an empty or missing element map a warning, and
      otherwise the projected records, or a warning if there are none. */
  function ProjectOutcome(dictionary: Dictionary, outcome: DecodeOutcome): (d: Display)
    ensures ExactlyOneOutcome(d)
    ensures outcome.Threw? && outcome.thrown.ErrorValue? ==>
              d == Failed(DecoderFailedPrefix + outcome.thrown.message)
    ensures outcome.Threw? && outcome.thrown.NonErrorValue? ==>
              d == Failed(DecoderFailedPrefix + UnknownErrorMessage)
    ensures outcome == Returned(None) ==> d == Failed(UndefinedDataSetMessage)
    ensures d.error == "" <==> outcome.Returned? && outcome.dataSet.Some?
    ensures outcome.Returned? && outcome.dataSet.Some? ==>
              var elements := outcome.dataSet.value.elements;
              && (elements.None? || elements.value == [] ==> d == Warned(HeaderOnlyWarning))
              && (elements.Some? && elements.value != [] ==>
                    d.records == Project(dictionary, elements.value)
                    && (d.records == [] <==> d == Warned(NoTagsWarning)))
  {
    match outcome
    case Threw(ErrorValue(message)) => Failed(DecoderFailedPrefix + message)
    case Threw(NonErrorValue) => Failed(DecoderFailedPrefix + UnknownErrorMessage)
    case Returned(None) => Failed(UndefinedDataSetMessage)
    case Returned(Some(dataSet)) =>
      if dataSet.elements.None? || dataSet.elements.value == [] then Warned(HeaderOnlyWarning)
      else
        var records := Project(dictionary, dataSet.elements.value);
        if records == [] then Warned(NoTagsWarning) else Display("", "", records)
  }

  /** The whole parse: reset, refuse a null input without calling the decoder,
      rebuild the byte buffer and hand it to the decoder. */
  function Pipeline(dictionary: Dictionary, input: Option<seq<Int32>>, decode: Decoder): (d: Display)
    ensures ExactlyOneOutcome(d)
    ensures input.None? ==> d == Failed(NoInputMessage)
    ensures input.Some? ==> d == ProjectOutcome(dictionary, decode(Reconstruct(input.value)))
    ensures forall j :: 0 <= j < |d.records| ==> d.records[j].name == LookupName(dictionary, d.records[j].tag)
    ensures forall j :: 0 <= j < |d.records| ==> d.records[j].name == UnknownName || dictionary(d.records[j].tag).Some?
  {
    match input
    case None => Failed(NoInputMessage)
    case Some(samples) =>
      var outcome := decode(Reconstruct(samples));
      if outcome.Returned? && outcome.dataSet.Some? && outcome.dataSet.value.elements.Some? then
        ProjectNames(dictionary, outcome.dataSet.value.elements.value);
        ProjectOutcome(dictionary, outcome)
      else
        ProjectOutcome(dictionary, outcome)
  }

  /** The decoder is consulted only on the reconstructed buffer, and not at
      all for a null input: two decoders that agree on that buffer give the
      same display state. */
  lemma DecoderSeesOnlyTheBuffer(dictionary: Dictionary, input: Option<seq<Int32>>, d1: Decoder, d2: Decoder)
    requires input.Some? ==> d1(Reconstruct(input.value)) == d2(Reconstruct(input.value))
    ensures Pipeline(dictionary, input, d1) == Pipeline(dictionary, input, d2)
  {
  }

  /** `r` under another dictionary: the same record with the name that
      dictionary gives its tag. */
  function Renamed(dictionary: Dictionary, r: Record): Record
  {
    r.(name := LookupName(dictionary, r.tag))
  }

  /** Projecting with another dictionary changes names and nothing else. */
  lemma {:induction false} ProjectRenames(d1: Dictionary, d2: Dictionary, entries: seq<Entry>)
    ensures |Project(d2, entries)| == |Project(d1, entries)|
    ensures forall j :: 0 <= j < |Project(d1, entries)| ==>
              Project(d2, entries)[j] == Renamed(d2, Project(d1, entries)[j])
  {
    if entries != [] {
      ProjectUnfold(d1, entries);
      ProjectUnfold(d2, entries);
      ProjectRenames(d1, d2, entries[1..]);
      var h1 := HeadRecords(d1, entries[0]);
      var h2 := HeadRecords(d2, entries[0]);
      var t1 := Project(d1, entries[1..]);
      var t2 := Project(d2, entries[1..]);
      forall j | 0 <= j < |h1 + t1| ensures (h2 + t2)[j] == Renamed(d2, (h1 + t1)[j]) {
        if j >= |h1| {
          IndexPastHead(h1, t1, j - |h1|);
          IndexPastHead(h2, t2, j - |h1|);
        }
      }
    }
  }

  /** Two pipelines that differ only in their dictionary, fed by the same
      decoder, agree on the error, the warning, the number of records and
      every record's tag and value; only names can differ. */
  lemma SameDecoderAgreesUpToNames(d1: Dictionary, d2: Dictionary, input: Option<seq<Int32>>, decode: Decoder)
    ensures Pipeline(d1, input, decode).error == Pipeline(d2, input, decode).error
    ensures Pipeline(d1, input, decode).warning == Pipeline(d2, input, decode).warning
    ensures |Pipeline(d1, input, decode).records| == |Pipeline(d2, input, decode).records|
    ensures forall j :: 0 <= j < |Pipeline(d1, input, decode).records| ==>
              Pipeline(d2, input, decode).records[j] == Renamed(d2, Pipeline(d1, input, decode).records[j])
  {
    if input.Some? {
      var outcome := decode(Reconstruct(input.value));
      if outcome.Returned? && outcome.dataSet.Some? && outcome.dataSet.value.elements.Some? {
        ProjectRenames(d1, d2, outcome.dataSet.value.elements.value);
      }
    }
  }
}
