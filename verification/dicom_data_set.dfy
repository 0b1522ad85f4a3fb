/** What the `dicom-parser` library hands back, as an abstract input, and the
    table vocabulary the pages share. The library itself (`parseDicom`,
    `dataSet.string`) is not modelled: a decoder is any function from the
    byte buffer to a `DecodeOutcome`. */
module DicomDataSet {
  import opened Options
  import opened Int32Bytes

  /** The result of `dataSet.string(key)`: a string, `undefined`, or a throw. */
  datatype Extraction = Text(text: string) | Missing | Throws

  /** One decoded element: its value representation (`element.vr`, possibly
      absent) and what extracting its string value yields. */
  datatype Element = Element(vr: Option<string>, extraction: Extraction)

  /** One property of `dataSet.elements`, in the object's iteration order.
      `element == None` stands for a falsy property value. */
  datatype Entry = Entry(key: string, element: Option<Element>)

  /** The decoded data set; `elements == None` is a missing element map. */
  datatype DataSet = DataSet(elements: Option<seq<Entry>>)

  /** A thrown value: an `Error` carrying its message, or anything else. */
  datatype Thrown = ErrorValue(message: string) | NonErrorValue

  /** One call of `parseDicom`: it throws, or returns a data set that may be
      falsy (`None`). */
  datatype DecodeOutcome = Threw(thrown: Thrown) | Returned(dataSet: Option<DataSet>)

  /** The decoder collaborator. */
  type Decoder = seq<Byte> -> DecodeOutcome

  /** One row of the result table. */
  datatype Record = Record(tag: string, name: string, value: string)

  /** The value every page shows for an empty or undefined string. */
  const EmptyValue := "N/A"

  predicate IsUpperHexDigit(c: char)
  {
    '0' <= c <= '9' || 'A' <= c <= 'F'
  }

  /** A tag as the dictionaries write it: group and element as eight
      upper-case hexadecimal digits. */
  predicate IsTag(tag: string)
  {
    |tag| == 8 && forall k :: 0 <= k < 8 ==> IsUpperHexDigit(tag[k])
  }
}
