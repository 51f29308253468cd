/** The resolved PDF objects that annotation dictionaries hold, and Python's
    str() of them. Parsing and indirect-reference resolution belong to the PDF
    library and are not part of this model: values arrive already resolved. */
module PdfObjects {
  import opened Optional

  /** A resolved PDF object as it can appear as an annotation field value. */
  datatype PdfValue =
    | Name(name: string)         // a name such as /Highlight (a Python str subclass)
    | Str(text: string)          // a text string (a Python str subclass)
    | Num(literal: string)       // a number, kept as its literal and never computed with
    | Arr(items: seq<PdfValue>)  // an array, e.g. the four numbers of /Rect

  /** One annotation dictionary, keyed by PDF names such as "/Subtype". */
  type AnnotDict = map<string, PdfValue>

  /** Python's dict.get(key, default). */
  function Get(d: AnnotDict, key: string, default: PdfValue): (v: PdfValue)
    ensures key in d ==> v == d[key]
    ensures key !in d ==> v == default
  {
    if key in d then d[key] else default
  }

  /** The Python string a value is equal to, if any: names and text strings
      are str subclasses and compare equal to plain strings; numbers and
      arrays never do. */
  function AsString(v: PdfValue): (r: Option<string>)
    ensures r.Some? <==> (v.Name? || v.Str?)
    ensures v.Name? ==> r == Some(v.name)
    ensures v.Str? ==> r == Some(v.text)
  {
    match v
    case Name(n) => Some(n)
    case Str(t) => Some(t)
    case Num(_) => None
    case Arr(_) => None
  }

  /** Python's str(v): a name or a text string is its own text, a number its
      literal, an array the list rendering of its items. */
  function ToStr(v: PdfValue): (s: string)
    ensures AsString(v).Some? ==> s == AsString(v).value
    ensures v.Arr? ==> |s| >= 2 && s[0] == '[' && s[|s| - 1] == ']'
  {
    match v
    case Name(n) => n
    case Str(t) => t
    case Num(l) => l
    case Arr(items) => "[" + ReprList(items) + "]"
  }

  /** Python's repr() of a value inside a list: strings are quoted. */
  function Repr(v: PdfValue): string
    decreases v
  {
    match v
    case Name(n) => "'" + n + "'"
    case Str(t) => "'" + t + "'"
    case Num(l) => l
    case Arr(items) => "[" + ReprList(items) + "]"
  }

  /** The items of a list, each by repr(), separated by ", ". */
  function ReprList(items: seq<PdfValue>): string
    decreases items
  {
    if |items| == 0 then ""
    else if |items| == 1 then Repr(items[0])
    else Repr(items[0]) + ", " + ReprList(items[1..])
  }
}
