/** `handleParse` of dicom/components/dicom-parser-spa.tsx: the same pipeline
    as `parse` in components/dicom-parser.util.tsx over a smaller dictionary. */
module DicomParserSpa {
  import opened Options
  import opened Int32Bytes
  import opened DicomDataSet
  import opened TagProjection
  import DicomParserUtil

  /** This file's `simplifiedDictionary`, names only: a part of the util
      dictionary, every entry with the same name there. */
  function SimplifiedDictionary(tag: string): (name: Option<string>)
    ensures name.Some? ==> DicomParserUtil.SimplifiedDictionary(tag) == name
  {
    match tag
    case "00080005" => Some("Specific Character Set")
    case "00080016" => Some("SOP Class UID")
    case "00080018" => Some("SOP Instance UID")
    case "00080020" => Some("Study Date")
    case "00080030" => Some("Study Time")
    case "00080050" => Some("Accession Number")
    case "00080060" => Some("Modality")
    case "00080070" => Some("Manufacturer")
    case "00080090" => Some("Referring Physician's Name")
    case "0008103E" => Some("Series Description")
    case "00100010" => Some("Patient's Name")
    case "00100020" => Some("Patient ID")
    case "00100030" => Some("Patient's Birth Date")
    case "00100040" => Some("Patient's Sex")
    case "0020000D" => Some("Study Instance UID")
    case "0020000E" => Some("Series Instance UID")
    case "00200010" => Some("Study ID")
    case "00200011" => Some("Series Number")
    case "00200013" => Some("Instance Number")
    case "00280010" => Some("Rows")
    case "00280011" => Some("Columns")
    case "00280100" => Some("Bits Allocated")
    case "00280101" => Some("Bits Stored")
    case "00280102" => Some("High Bit")
    case "00280103" => Some("Pixel Representation")
    case "7FE00010" => Some("Pixel Data")
    case _ => None
  }

  /** `handleParse()` over the loaded `input`: the display state it leaves. */
  function HandleParse(input: Option<seq<Int32>>, decode: Decoder): (d: Display)
    ensures ExactlyOneOutcome(d)
    ensures input.None? ==> d == Failed(NoInputMessage)
  {
    Pipeline(SimplifiedDictionary, input, decode)
  }

  /** The two name lookups differ exactly on the tags only the util
      dictionary knows. */
  lemma NamesDifferExactlyOnExtraTags(tag: string)
    ensures LookupName(SimplifiedDictionary, tag) != LookupName(DicomParserUtil.SimplifiedDictionary, tag)
            <==> SimplifiedDictionary(tag).None? && DicomParserUtil.SimplifiedDictionary(tag).Some?
  {
    var spa := SimplifiedDictionary(tag);
    var util := DicomParserUtil.SimplifiedDictionary(tag);
  }

  /** Given the same decoder behaviour, this page and the util `parse`
      show the same error, warning, tags and values; a record's name differs
      exactly when only the util dictionary knows its tag. */
  lemma AgreesWithUtilExceptNames(input: Option<seq<Int32>>, decode: Decoder)
    ensures var u := DicomParserUtil.Parse(input, decode);
            var p := HandleParse(input, decode);
            && u.error == p.error && u.warning == p.warning && |u.records| == |p.records|
            && forall j :: 0 <= j < |u.records| ==>
                 && p.records[j].tag == u.records[j].tag
                 && p.records[j].value == u.records[j].value
                 && (p.records[j].name != u.records[j].name <==>
                       SimplifiedDictionary(u.records[j].tag).None? && DicomParserUtil.SimplifiedDictionary(u.records[j].tag).Some?)
  {
    var u := DicomParserUtil.Parse(input, decode);
    var p := HandleParse(input, decode);
    SameDecoderAgreesUpToNames(DicomParserUtil.SimplifiedDictionary, SimplifiedDictionary, input, decode);
    forall j | 0 <= j < |u.records|
      ensures p.records[j].name != u.records[j].name <==>
                SimplifiedDictionary(u.records[j].tag).None? && DicomParserUtil.SimplifiedDictionary(u.records[j].tag).Some?
    {
      NamesDifferExactlyOnExtraTags(u.records[j].tag);
    }
  }

  lemma NameExample()
    ensures LookupName(SimplifiedDictionary, "00020010") == UnknownName
    ensures LookupName(DicomParserUtil.SimplifiedDictionary, "00020010") == "Transfer Syntax UID"
  {
  }
}
