/** `parse` of components/dicom-parser.util.tsx: the shared pipeline over
    this file's name dictionary. */
module DicomParserUtil {
  import opened Options
  import opened Int32Bytes
  import opened DicomDataSet
  import opened TagProjection

  /** `simplifiedDictionary`, names only (the `vr` column is never read).
      No name is empty or the fallback "Unknown", so a found name is always
      told apart from a missing one. The entry for 00020003 keeps the tab
      that starts its name. */
  function SimplifiedDictionary(tag: string): (name: Option<string>)
    ensures name.Some? ==> name.value != "" && name.value != UnknownName
  {
    match tag
    case "00080005" => Some("Specific Character Set")
    case "00080016" => Some("SOP Class UID")
    case "00080018" => Some("SOP Instance UID")
    case "00080020" => Some("Study Date")
    case "00080030" => Some("Study Time")
    case "00080050" => Some("Accession Number")
    case "00080060" => Some("Modality")
    case "00080070" => Some("Manufacturer")
    case "00080090" => Some("Referring Physician's Name")
    case "0008103E" => Some("Series Description")
    case "00100010" => Some("Patient's Name")
    case "00100020" => Some("Patient ID")
    case "00100030" => Some("Patient's Birth Date")
    case "00100040" => Some("Patient's Sex")
    case "0020000D" => Some("Study Instance UID")
    case "0020000E" => Some("Series Instance UID")
    case "00200010" => Some("Study ID")
    case "00200011" => Some("Series Number")
    case "00200013" => Some("Instance Number")
    case "00280010" => Some("Rows")
    case "00280011" => Some("Columns")
    case "00280100" => Some("Bits Allocated")
    case "00280101" => Some("Bits Stored")
    case "00280102" => Some("High Bit")
    case "00280103" => Some("Pixel Representation")
    case "7FE00010" => Some("Pixel Data")
    case "00283110" => Some("Softcopy VOI LUT Sequence")
    case "0040A043" => Some("Concept Name Code Sequence")
    case "0040A050" => Some("Continuity Of Content")
    case "0040A372" => Some("Performed Procedure Code Sequence")
    case "0040A375" => Some("Current Requested Procedure Evidence Sequence")
    case "0040A491" => Some("Completion Flag")
    case "0040A493" => Some("Verification Flag")
    case "0040A504" => Some("Content Template Sequence")
    case "0040A730" => Some("Content Sequence")
    case "00700041" => Some("unknown")
    case "00700042" => Some("Image Horizontal Flip")
    case "0070005A" => Some("Image Rotation")
    case "00020000" => Some("File Meta Information Group Length")
    case "00020001" => Some("File Meta Information Version")
    case "00020002" => Some("Media Storage SOP Class UID")
    case "00020003" => Some("\tMedia Storage SOP Instance UID")
    case "00020010" => Some("Transfer Syntax UID")
    case "00020012" => Some("Implementation Class UID")
    case "00020013" => Some("Implementation Version Name")
    case _ => None
  }

  /** `parse(input, dicomParser, ...)`: the display state it leaves behind. */
  function Parse(input: Option<seq<Int32>>, decode: Decoder): (d: Display)
    ensures ExactlyOneOutcome(d)
    ensures input.None? ==> d == Failed(NoInputMessage)
  {
    Pipeline(SimplifiedDictionary, input, decode)
  }

  /** Names are the dictionary's own entries, taken verbatim, even the one
      that reads "unknown". */
  lemma NameExamples()
    ensures LookupName(SimplifiedDictionary, "00020010") == "Transfer Syntax UID"
    ensures LookupName(SimplifiedDictionary, "00700041") == "unknown"
    ensures LookupName(SimplifiedDictionary, "00181000") == UnknownName
  {
  }
}
