/**
 * The library tree of `storage::LibraryBook`, `storage::LibraryShelf` and the
 * contents of `storage::Library`, as values, and their mapping to and from XML
 * elements: the parsing constructors and the `serialize` methods.
 */
module Shelves {
  import opened Xml

  /** A book: its name and the location of its content (never opened here). */
  datatype Book = Book(name: string, location: string)

  /** A shelf owns its sub-shelves and its books by value, each in insertion order. */
  datatype Shelf = Shelf(name: string, subshelfs: seq<Shelf>, books: seq<Book>)

  /** What a library holds besides the path it came from: the owner and the top-level shelves. */
  datatype LibraryTree = LibraryTree(owner: string, shelfs: seq<Shelf>)

  const UntitledName := "<untitled>"
  const UnnamedName := "<unnamed>"
  const UnknownOwner := "unknown"

  // ---------------------------------------------------------------------------
  // Constructors without XML

  /** `LibraryBook()`: the book an attribute-less `book` element parses to. */
  function EmptyBook(): (b: Book)
    ensures b.name == UntitledName && b.location == ""
    ensures b == ParseBook(Element("book", map[], []))
  {
    Book(UntitledName, "")
  }

  /** `LibraryBook(name, location = "")`. */
  function NewBook(name: string, location: string := ""): (b: Book)
    ensures b.name == name && b.location == location
    ensures ParseBook(SerializeBook(b)) == b
  {
    Book(name, location)
  }

  /** `LibraryShelf()`: the shelf an attribute-less, childless `shelf` element parses to. */
  function EmptyShelf(): (s: Shelf)
    ensures s.name == UnnamedName && s.subshelfs == [] && s.books == []
    ensures s == ParseShelf(Element("shelf", map[], []))
  {
    Shelf(UnnamedName, [], [])
  }

  /** `LibraryShelf(name)`: a shelf with that name and nothing on it. */
  function NewShelf(name: string): (s: Shelf)
    ensures s.name == name && s.subshelfs == [] && s.books == []
    ensures ParseShelf(SerializeShelf(s)) == s
  {
    Shelf(name, [], [])
  }

  // ---------------------------------------------------------------------------
  // Parsing: the constructors that take an XMLElement

  /** `LibraryBook(XMLElement*)`: each attribute that is present is copied, a missing one keeps its default. */
  function ParseBook(e: Element): (b: Book)
    ensures "name" in e.attrs ==> b.name == e.attrs["name"]
    ensures "name" !in e.attrs ==> b.name == UntitledName
    ensures "location" in e.attrs ==> b.location == e.attrs["location"]
    ensures "location" !in e.attrs ==> b.location == ""
  {
    Book(AttributeOr(e, "name", UntitledName), AttributeOr(e, "location", ""))
  }

  /**
   * `LibraryShelf(XMLElement*)`: the name attribute (default "<unnamed>"), every
   * `shelf` child parsed as a sub-shelf and every `book` child as a book. The
   * element's own tag is not looked at.
   */
  function ParseShelf(e: Element): Shelf
    decreases e, 1
  {
    Shelf(AttributeOr(e, "name", UnnamedName), ParseShelfs(e.children), ParseBooks(e.children))
  }

  /** The sub-shelves parsed from the `shelf` elements among `cs`, in document order. */
  function ParseShelfs(cs: seq<Element>): seq<Shelf>
    decreases cs, 0
  {
    if cs == [] then []
    else (if cs[0].tag == "shelf" then [ParseShelf(cs[0])] else []) + ParseShelfs(cs[1..])
  }

  /** The books parsed from the `book` elements among `cs`, in document order. */
  function ParseBooks(cs: seq<Element>): seq<Book>
  {
    if cs == [] then []
    else (if cs[0].tag == "book" then [ParseBook(cs[0])] else []) + ParseBooks(cs[1..])
  }

  /** The `library` element's content: the owner attribute (default "unknown") and its `shelf` children. */
  function ParseLibrary(e: Element): (t: LibraryTree)
    ensures "owner" in e.attrs ==> t.owner == e.attrs["owner"]
    ensures "owner" !in e.attrs ==> t.owner == UnknownOwner
    ensures |t.shelfs| == |ChildElements(e.children, "shelf")|
    ensures forall i :: 0 <= i < |t.shelfs| ==> t.shelfs[i] == ParseShelf(ChildElements(e.children, "shelf")[i])
  {
    ParseShelfsIsWalk(e.children);
    LibraryTree(AttributeOr(e, "owner", UnknownOwner), ParseShelfs(e.children))
  }

  // ---------------------------------------------------------------------------
  // Serialising: the `serialize` methods

  /** `LibraryBook::serialize`: a `book` element that always carries both attributes. */
  function SerializeBook(b: Book): (r: Element)
    ensures r.tag == "book" && r.children == []
    ensures r.attrs.Keys == {"name", "location"}
    ensures r.attrs["name"] == b.name && r.attrs["location"] == b.location
  {
    Element("book", map["name" := b.name, "location" := b.location], [])
  }

  /** `LibraryShelf::serialize`: a `shelf` element, its sub-shelves first, then its books. */
  function SerializeShelf(s: Shelf): Element
    decreases s, 1
  {
    Element("shelf", map["name" := s.name], SerializeShelfs(s.subshelfs) + SerializeBooks(s.books))
  }

  function SerializeShelfs(ss: seq<Shelf>): seq<Element>
    decreases ss, 0
  {
    if ss == [] then [] else [SerializeShelf(ss[0])] + SerializeShelfs(ss[1..])
  }

  function SerializeBooks(bs: seq<Book>): seq<Element>
  {
    if bs == [] then [] else [SerializeBook(bs[0])] + SerializeBooks(bs[1..])
  }

  /** `Library::serialize`: a `library` element with the owner attribute and one `shelf` child per shelf. */
  function SerializeLibrary(t: LibraryTree): Element
  {
    Element("library", map["owner" := t.owner], SerializeShelfs(t.shelfs))
  }

  // ---------------------------------------------------------------------------
  // What parsing picks out of an element

  /** Parsing a list of children keeps exactly the `shelf` elements, in document order. */
  lemma ParseShelfsIsWalk(cs: seq<Element>)
    ensures |ParseShelfs(cs)| == |ChildElements(cs, "shelf")|
    ensures forall i :: 0 <= i < |ParseShelfs(cs)| ==> ParseShelfs(cs)[i] == ParseShelf(ChildElements(cs, "shelf")[i])
  {
    ParseShelfsLength(cs);
    forall i | 0 <= i < |ParseShelfs(cs)|
      ensures ParseShelfs(cs)[i] == ParseShelf(ChildElements(cs, "shelf")[i])
    {
      ParseShelfsAt(cs, i);
    }
  }

  lemma {:induction false} ParseShelfsLength(cs: seq<Element>)
    ensures |ParseShelfs(cs)| == |ChildElements(cs, "shelf")|
  {
    if cs != [] {
      ParseShelfsLength(cs[1..]);
    }
  }

  lemma {:induction false} ParseShelfsAt(cs: seq<Element>, i: nat)
    requires i < |ParseShelfs(cs)| && i < |ChildElements(cs, "shelf")|
    ensures ParseShelfs(cs)[i] == ParseShelf(ChildElements(cs, "shelf")[i])
  {
    var rest, walk := ParseShelfs(cs[1..]), ChildElements(cs[1..], "shelf");
    if cs[0].tag == "shelf" {
      assert ParseShelfs(cs) == [ParseShelf(cs[0])] + rest;
      assert ChildElements(cs, "shelf") == [cs[0]] + walk;
      if i > 0 {
        ParseShelfsAt(cs[1..], i - 1);
      }
    } else {
      assert ParseShelfs(cs) == rest;
      assert ChildElements(cs, "shelf") == walk;
      ParseShelfsAt(cs[1..], i);
    }
  }

  /** Parsing a list of children keeps exactly the `book` elements, in document order. */
  lemma ParseBooksIsWalk(cs: seq<Element>)
    ensures |ParseBooks(cs)| == |ChildElements(cs, "book")|
    ensures forall i :: 0 <= i < |ParseBooks(cs)| ==> ParseBooks(cs)[i] == ParseBook(ChildElements(cs, "book")[i])
  {
    ParseBooksLength(cs);
    forall i | 0 <= i < |ParseBooks(cs)|
      ensures ParseBooks(cs)[i] == ParseBook(ChildElements(cs, "book")[i])
    {
      ParseBooksAt(cs, i);
    }
  }

  lemma {:induction false} ParseBooksLength(cs: seq<Element>)
    ensures |ParseBooks(cs)| == |ChildElements(cs, "book")|
  {
    if cs != [] {
      ParseBooksLength(cs[1..]);
    }
  }

  lemma {:induction false} ParseBooksAt(cs: seq<Element>, i: nat)
    requires i < |ParseBooks(cs)| && i < |ChildElements(cs, "book")|
    ensures ParseBooks(cs)[i] == ParseBook(ChildElements(cs, "book")[i])
  {
    var rest, walk := ParseBooks(cs[1..]), ChildElements(cs[1..], "book");
    if cs[0].tag == "book" {
      assert ParseBooks(cs) == [ParseBook(cs[0])] + rest;
      assert ChildElements(cs, "book") == [cs[0]] + walk;
      if i > 0 {
        ParseBooksAt(cs[1..], i - 1);
      }
    } else {
      assert ParseBooks(cs) == rest;
      assert ChildElements(cs, "book") == walk;
      ParseBooksAt(cs[1..], i);
    }
  }

  /**
   * A parsed shelf: the name attribute or "<unnamed>", the `shelf` children as
   * sub-shelves and the `book` children as books, each in document order.
   */
  lemma ParseShelfLayout(e: Element)
    ensures ParseShelf(e).name == (if "name" in e.attrs then e.attrs["name"] else UnnamedName)
    ensures |ParseShelf(e).subshelfs| == |ChildElements(e.children, "shelf")|
    ensures forall i :: 0 <= i < |ParseShelf(e).subshelfs| ==>
      ParseShelf(e).subshelfs[i] == ParseShelf(ChildElements(e.children, "shelf")[i])
    ensures |ParseShelf(e).books| == |ChildElements(e.children, "book")|
    ensures forall i :: 0 <= i < |ParseShelf(e).books| ==>
      ParseShelf(e).books[i] == ParseBook(ChildElements(e.children, "book")[i])
  {
    ParseShelfsIsWalk(e.children);
    ParseBooksIsWalk(e.children);
  }

  lemma {:induction false} ParseShelfsAppend(a: seq<Element>, b: seq<Element>)
    ensures ParseShelfs(a + b) == ParseShelfs(a) + ParseShelfs(b)
  {
    if a == [] {
      assert a + b == b;
    } else {
      var head := if a[0].tag == "shelf" then [ParseShelf(a[0])] else [];
      assert (a + b)[0] == a[0] && (a + b)[1..] == a[1..] + b;
      calc {
        ParseShelfs(a + b);
        head + ParseShelfs(a[1..] + b);
        { ParseShelfsAppend(a[1..], b); }
        head + (ParseShelfs(a[1..]) + ParseShelfs(b));
        { Assoc(head, ParseShelfs(a[1..]), ParseShelfs(b)); }
        ParseShelfs(a) + ParseShelfs(b);
      }
    }
  }

  lemma {:induction false} ParseBooksAppend(a: seq<Element>, b: seq<Element>)
    ensures ParseBooks(a + b) == ParseBooks(a) + ParseBooks(b)
  {
    if a == [] {
      assert a + b == b;
    } else {
      var head := if a[0].tag == "book" then [ParseBook(a[0])] else [];
      assert (a + b)[0] == a[0] && (a + b)[1..] == a[1..] + b;
      calc {
        ParseBooks(a + b);
        head + ParseBooks(a[1..] + b);
        { ParseBooksAppend(a[1..], b); }
        head + (ParseBooks(a[1..]) + ParseBooks(b));
        { Assoc(head, ParseBooks(a[1..]), ParseBooks(b)); }
        ParseBooks(a) + ParseBooks(b);
      }
    }
  }

  /** A child element whose tag is neither `shelf` nor `book` leaves no trace in the parsed shelf. */
  lemma ParseShelfIgnoresOtherTags(tag: string, attrs: map<string, string>, before: seq<Element>, x: Element, after: seq<Element>)
    requires x.tag != "shelf" && x.tag != "book"
    ensures ParseShelf(Element(tag, attrs, before + [x] + after)) == ParseShelf(Element(tag, attrs, before + after))
  {
    ShelfsIgnoreOtherTag(before, x, after);
    BooksIgnoreOtherTag(before, x, after);
  }

  lemma ShelfsIgnoreOtherTag(before: seq<Element>, x: Element, after: seq<Element>)
    requires x.tag != "shelf"
    ensures ParseShelfs(before + [x] + after) == ParseShelfs(before + after)
  {
    ParseShelfsAppend(before + [x], after);
    ParseShelfsAppend(before, [x]);
    ParseShelfsAppend(before, after);
    assert ParseShelfs([x]) == [];
  }

  lemma BooksIgnoreOtherTag(before: seq<Element>, x: Element, after: seq<Element>)
    requires x.tag != "book"
    ensures ParseBooks(before + [x] + after) == ParseBooks(before + after)
  {
    ParseBooksAppend(before + [x], after);
    ParseBooksAppend(before, [x]);
    ParseBooksAppend(before, after);
    assert ParseBooks([x]) == [];
  }

  // ---------------------------------------------------------------------------
  // What serialising produces

  lemma {:induction false} SerializeShelfsAt(ss: seq<Shelf>)
    ensures |SerializeShelfs(ss)| == |ss|
    ensures forall i :: 0 <= i < |ss| ==> SerializeShelfs(ss)[i] == SerializeShelf(ss[i])
  {
    if ss != [] {
      SerializeShelfsAt(ss[1..]);
    }
  }

  /** A serialised library: a `library` element with exactly the owner attribute and one `shelf` child per shelf, in order. */
  lemma SerializeLibraryLayout(t: LibraryTree)
    ensures SerializeLibrary(t).tag == "library" && SerializeLibrary(t).attrs == map["owner" := t.owner]
    ensures |SerializeLibrary(t).children| == |t.shelfs|
    ensures forall i :: 0 <= i < |t.shelfs| ==> SerializeLibrary(t).children[i] == SerializeShelf(t.shelfs[i])
  {
    SerializeShelfsAt(t.shelfs);
  }

  lemma {:induction false} SerializeBooksAt(bs: seq<Book>)
    ensures |SerializeBooks(bs)| == |bs|
    ensures forall i :: 0 <= i < |bs| ==> SerializeBooks(bs)[i] == SerializeBook(bs[i])
  {
    if bs != [] {
      SerializeBooksAt(bs[1..]);
    }
  }

  /**
   * A serialised shelf is a `shelf` element with exactly the `name` attribute,
   * whose children are every sub-shelf in order, then every book in order, each
   * book with both its `name` and its `location` attribute.
   */
  lemma SerializeShelfLayout(s: Shelf)
    ensures SerializeShelf(s).tag == "shelf" && SerializeShelf(s).attrs == map["name" := s.name]
    ensures |SerializeShelf(s).children| == |s.subshelfs| + |s.books|
    ensures forall i :: 0 <= i < |s.subshelfs| ==> SerializeShelf(s).children[i] == SerializeShelf(s.subshelfs[i])
    ensures forall j :: 0 <= j < |s.books| ==>
      var c := SerializeShelf(s).children[|s.subshelfs| + j];
      c.tag == "book" && c.attrs.Keys == {"name", "location"} &&
      c.attrs["name"] == s.books[j].name && c.attrs["location"] == s.books[j].location
  {
    var subs, books := SerializeShelfs(s.subshelfs), SerializeBooks(s.books);
    var cs := SerializeShelf(s).children;
    assert cs == subs + books;
    SerializeShelfsAt(s.subshelfs);
    SerializeBooksAt(s.books);
    forall i | 0 <= i < |s.subshelfs|
      ensures cs[i] == SerializeShelf(s.subshelfs[i])
    {
      assert cs[i] == subs[i];
    }
    forall j | 0 <= j < |s.books|
      ensures cs[|s.subshelfs| + j] == SerializeBook(s.books[j])
    {
      assert cs[|s.subshelfs| + j] == books[j];
    }
  }

  // ---------------------------------------------------------------------------
  // Round trip

  lemma BookRoundTrip(b: Book)
    ensures ParseBook(SerializeBook(b)) == b
  {
  }

  lemma {:induction false} BooksRoundTrip(bs: seq<Book>)
    ensures ParseBooks(SerializeBooks(bs)) == bs
    ensures ParseShelfs(SerializeBooks(bs)) == []
  {
    if bs != [] {
      BooksRoundTrip(bs[1..]);
    }
  }

  /** Parsing a serialised shelf gives back the same shelf, at every depth. */
  lemma {:induction false} ShelfRoundTrip(s: Shelf)
    ensures ParseShelf(SerializeShelf(s)) == s
    decreases s, 1
  {
    var subs, books := SerializeShelfs(s.subshelfs), SerializeBooks(s.books);
    ShelfsRoundTrip(s.subshelfs);
    BooksRoundTrip(s.books);
    ParseShelfsAppend(subs, books);
    ParseBooksAppend(subs, books);
  }

  /** Parsing serialised shelves gives back the same shelves in the same order, and no books. */
  lemma {:induction false} ShelfsRoundTrip(ss: seq<Shelf>)
    ensures ParseShelfs(SerializeShelfs(ss)) == ss
    ensures ParseBooks(SerializeShelfs(ss)) == []
    decreases ss, 0
  {
    if ss != [] {
      ShelfRoundTrip(ss[0]);
      ShelfsRoundTrip(ss[1..]);
      ParseShelfsAppend([SerializeShelf(ss[0])], SerializeShelfs(ss[1..]));
      ParseBooksAppend([SerializeShelf(ss[0])], SerializeShelfs(ss[1..]));
    }
  }

  /** Parsing a serialised library gives back its owner and all its shelves. */
  lemma LibraryRoundTrip(t: LibraryTree)
    ensures ParseLibrary(SerializeLibrary(t)) == t
  {
    ShelfsRoundTrip(t.shelfs);
  }
}
