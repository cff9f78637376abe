/**
 * The part of tinyxml2 the library storage relies on, as values: an element
 * tree, attribute lookup, the child walk by tag name, the error codes that
 * `XMLDocument::LoadFile` reports, and an abstract file system that documents
 * are loaded from and saved to. The text layer (escaping, the XML declaration
 * node, whitespace) is not part of this model.
 */
module Xml {
  import opened Wrappers

  /** An XML element: its tag, its attributes and its child elements in document order. */
  datatype Element = Element(tag: string, attrs: map<string, string>, children: seq<Element>)

  /** The top-level elements of a document, in document order. */
  type Document = seq<Element>

  type Path = string

  /**
   * `XMLElement::Attribute(name)` yields the value, or nullptr when the
   * attribute is absent; the callers then keep a default value.
   */
  function AttributeOr(e: Element, name: string, default: string): string
  {
    if name in e.attrs then e.attrs[name] else default
  }

  /**
   * The elements that the walk `FirstChildElement(tag)`, then
   * `NextSiblingElement(tag)` until nullptr, visits among `cs`.
   */
  function ChildElements(cs: seq<Element>, tag: string): (r: seq<Element>)
    ensures |r| <= |cs|
    ensures forall x :: x in r ==> x in cs && x.tag == tag
  {
    if cs == [] then []
    else (if cs[0].tag == tag then [cs[0]] else []) + ChildElements(cs[1..], tag)
  }

  /** `FirstChildElement(tag)`: the first element of `cs` with that tag, if any. */
  function FirstChildElement(cs: seq<Element>, tag: string): (r: Option<Element>)
    ensures r.Some? <==> exists i :: 0 <= i < |cs| && cs[i].tag == tag
    ensures r.Some? ==> r.value in cs && r.value.tag == tag
    ensures r.Some? ==> exists i :: 0 <= i < |cs| && cs[i] == r.value && forall j :: 0 <= j < i ==> cs[j].tag != tag
  {
    if cs == [] then None
    else if cs[0].tag == tag then Some(cs[0])
    else
      var r := FirstChildElement(cs[1..], tag);
      assert forall i :: 1 <= i < |cs| ==> cs[i] == cs[1..][i - 1];
      r
  }

  lemma {:induction false} ChildElementsAppend(a: seq<Element>, b: seq<Element>, tag: string)
    ensures ChildElements(a + b, tag) == ChildElements(a, tag) + ChildElements(b, tag)
  {
    if a == [] {
      assert a + b == b;
    } else {
      var head := if a[0].tag == tag then [a[0]] else [];
      assert (a + b)[0] == a[0] && (a + b)[1..] == a[1..] + b;
      calc {
        ChildElements(a + b, tag);
        head + ChildElements(a[1..] + b, tag);
        { ChildElementsAppend(a[1..], b, tag); }
        head + (ChildElements(a[1..], tag) + ChildElements(b, tag));
        { Assoc(head, ChildElements(a[1..], tag), ChildElements(b, tag)); }
        ChildElements(a, tag) + ChildElements(b, tag);
      }
    }
  }

  /** Concatenation of sequences regrouped. */
  lemma Assoc<T>(a: seq<T>, b: seq<T>, c: seq<T>)
    ensures a + (b + c) == a + b + c
  {
  }

  /** A walk over elements that all carry the tag visits every one of them. */
  lemma {:induction false} ChildElementsAll(cs: seq<Element>, tag: string)
    requires forall i :: 0 <= i < |cs| ==> cs[i].tag == tag
    ensures ChildElements(cs, tag) == cs
  {
    if cs != [] {
      ChildElementsAll(cs[1..], tag);
    }
  }

  /** A walk over elements none of which carries the tag visits nothing. */
  lemma {:induction false} ChildElementsNone(cs: seq<Element>, tag: string)
    requires forall i :: 0 <= i < |cs| ==> cs[i].tag != tag
    ensures ChildElements(cs, tag) == []
  {
    if cs != [] {
      ChildElementsNone(cs[1..], tag);
    }
  }

  /** The `tinyxml2::XMLError` codes that `LoadFile` can report. */
  datatype XmlError =
    | XmlSuccess
    | NoAttribute
    | WrongAttributeType
    | FileNotFound
    | FileCouldNotBeOpened
    | FileReadError
    | ParsingElement
    | ParsingAttribute
    | ParsingText
    | ParsingCdata
    | ParsingComment
    | ParsingDeclaration
    | ParsingUnknown
    | EmptyDocument
    | MismatchedElement
    | Parsing
    | CanNotConvertText
    | NoTextNode
    | ElementDepthExceeded

  /** A code other than `XmlSuccess`: what a file that cannot be loaded reports. */
  type FailureCode = c: XmlError | c != XmlSuccess witness FileReadError

  /**
   * What is stored at a path: a file with no content, a well-formed document,
   * or a file whose loading fails with the given code (it cannot be opened or
   * read, or its text is not well-formed XML).
   */
  datatype FileEntry = Empty | Holds(doc: Document) | Unreadable(code: FailureCode)

  /** The files, and the paths a save cannot write to. */
  datatype FileSystem = FileSystem(files: map<Path, FileEntry>, readOnly: set<Path>)

  /** The outcome of `XMLDocument::LoadFile`: the code and the document it holds afterwards. */
  datatype Loaded = Loaded(code: XmlError, doc: Document)

  /** The empty path names no file, so opening it for writing always fails. */
  predicate Writable(fs: FileSystem, path: Path)
  {
    path != "" && path !in fs.readOnly
  }

  /**
   * `XMLDocument::LoadFile(path)`. The empty path names no file, so it is
   * reported as not found whatever the map holds under it.
   */
  function LoadFile(fs: FileSystem, path: Path): (r: Loaded)
    ensures r.code == XmlSuccess <==> path != "" && path in fs.files && fs.files[path].Holds?
    ensures r.code == XmlSuccess ==> r.doc == fs.files[path].doc
    ensures r.code != XmlSuccess ==> r.doc == []
    ensures r.code == FileNotFound <==>
      path == "" || path !in fs.files || fs.files[path] == Unreadable(FileNotFound)
    ensures r.code == EmptyDocument <==>
      path != "" && path in fs.files && fs.files[path] in {Empty, Unreadable(EmptyDocument)}
  {
    if path == "" || path !in fs.files then Loaded(FileNotFound, [])
    else match fs.files[path]
      case Empty => Loaded(EmptyDocument, [])
      case Holds(doc) => Loaded(XmlSuccess, doc)
      case Unreadable(code) => Loaded(code, [])
  }

  /**
   * `XMLDocument::SaveFile(path)`: the document replaces whatever is stored at
   * `path`; when the path cannot be written nothing changes. tinyxml2 returns
   * an error code, which `Library::save` discards, so none is modelled.
   */
  function SaveFile(fs: FileSystem, path: Path, doc: Document): (r: FileSystem)
    ensures r.readOnly == fs.readOnly
    ensures Writable(fs, path) ==> LoadFile(r, path) == Loaded(XmlSuccess, doc)
    ensures !Writable(fs, path) ==> r == fs
    ensures forall p :: p != path ==> LoadFile(r, p) == LoadFile(fs, p)
  {
    if Writable(fs, path) then fs.(files := fs.files[path := Holds(doc)]) else fs
  }
}
