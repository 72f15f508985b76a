/**
 * The parsed XML the corpus builder reads, as values. XML parsing, namespaces and
 * XPath `findall` are not modelled: each datatype is what ElementTree hands the
 * builder. An attribute is `Some(value)` when present and `None` when absent;
 * element text is `None` when ElementTree's `.text` is `None`.
 */
module Markup {
  import opened Wrappers

  /** The result of `element.find(path)`: no element, or an element and its `.text`. */
  datatype FoundElement = NotFound | Found(text: Option<string>)

  /** An `entry` of the Strong's lexicon: its `strongs` attribute and its
      `strongs_def` descendant. */
  datatype Entry = Entry(strongs: Option<string>, strongsDef: FoundElement)

  /** A direct child of an OSIS `chapter`: a `verse` milestone, a `w` word, or any
      other element. */
  datatype Child =
    | VerseEl(sID: Option<string>, eID: Option<string>, osisID: Option<string>)
    | W(text: Option<string>, lemmaAttr: Option<string>, morphAttr: Option<string>)
    | Other

  /** An OSIS `chapter`: its `osisID` attribute and its children in document order. */
  datatype Chapter = Chapter(osisID: Option<string>, children: seq<Child>)

  /** An OSIS `div type="book"`: its first `title` child, its `osisID` attribute and
      its `chapter` children in document order. */
  datatype Book = Book(title: FoundElement, osisID: Option<string>, chapters: seq<Chapter>)

  /** Python truthiness of an optional string: present and non-empty. */
  predicate Truthy(a: Option<string>) {
    a.Some? && a.value != ""
  }

  /** `element.get(name, default)`. */
  function AttrOr(a: Option<string>, default: string): (r: string) {
    if a.Some? then a.value else default
  }
}
