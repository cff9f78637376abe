/**
 * `storage::Library`: loading a library from its XML file (with the bootstrap
 * of a default library when the file is missing or empty), saving it, and the
 * deletes and appends on its tree.
 */
module Storage {
  import opened Wrappers
  import opened Xml
  import opened Shelves
  import opened Edits

  /**
   * The exceptions of exceptions.h that loading throws. OpenError, ReadError
   * and ParsingError are kinds of FileError; FileError itself is thrown for
   * the rest.
   */
  datatype LoadError = FileError | OpenError | ReadError | ParsingError

  /** What loading yields: the library's contents or the error, and the file system afterwards. */
  datatype LoadOutcome = LoadOutcome(result: Result<LibraryTree, LoadError>, fs: FileSystem)

  /** The contents `Library()` builds: owner "unknown", one shelf "default" holding one book "New Book". */
  function DefaultTree(): LibraryTree
  {
    LibraryTree(UnknownOwner, [NewShelf("default").(books := [NewBook("New Book")])])
  }

  /** `Library::save(path)`: the document holds the serialised library; a failed write is not reported. */
  function SaveLibrary(fs: FileSystem, path: Path, t: LibraryTree): FileSystem
  {
    SaveFile(fs, path, [SerializeLibrary(t)])
  }

  /** The codes that the loader turns into a ParsingError. */
  predicate IsParsingCode(c: XmlError)
  {
    c in {Parsing, ParsingElement, ParsingAttribute, ParsingText, ParsingCdata,
          ParsingComment, ParsingDeclaration, ParsingUnknown}
  }

  /** The codes on which the loader writes a default library and loads again. */
  predicate IsBootstrapCode(c: XmlError)
  {
    c == FileNotFound || c == EmptyDocument
  }

  /** The codes the loader's switch has no case for. */
  predicate IsUnexpectedCode(c: XmlError)
  {
    !(c == XmlSuccess || c == FileCouldNotBeOpened || c == FileReadError || IsParsingCode(c) || IsBootstrapCode(c))
  }

  predicate HasLibraryElement(doc: Document)
  {
    FirstChildElement(doc, "library").Some?
  }

  /** What `Library(path)` does with a loaded document: parse its first `library` element. */
  function FromDocument(doc: Document): Result<LibraryTree, LoadError>
  {
    match FirstChildElement(doc, "library")
    case None => Failure(ParsingError)
    case Some(e) => Success(ParseLibrary(e))
  }

  /**
   * The bootstrap of `Library(path)` on a missing or empty file: save
   * `Library()` to the path and load again. The default library comes back
   * when the path is writable; otherwise the reload fails with FileError.
   */
  function Bootstrap(fs: FileSystem, path: Path): (r: LoadOutcome)
    requires IsBootstrapCode(LoadFile(fs, path).code)
    ensures r.fs == SaveLibrary(fs, path, DefaultTree())
    ensures r.result == if Writable(fs, path) then Success(DefaultTree()) else Failure(FileError)
  {
    var written := SaveLibrary(fs, path, DefaultTree());
    var second := LoadFile(written, path);
    LibraryRoundTrip(DefaultTree());
    if second.code != XmlSuccess then LoadOutcome(Failure(FileError), written)
    else LoadOutcome(FromDocument(second.doc), written)
  }

  /**
   * `Library(path)`: load the file and map the loader's code onto the error
   * kinds. On a missing or empty file it saves `Library()` to the path and
   * loads again, failing with FileError when that load fails too.
   *
   * Each error kind arises exactly from its code; nothing is written except on
   * the bootstrap; and a success is either the file's library or, after the
   * bootstrap, the default library.
   */
  function Load(fs: FileSystem, path: Path): (r: LoadOutcome)
    ensures r.result == Failure(OpenError) <==> LoadFile(fs, path).code == FileCouldNotBeOpened
    ensures r.result == Failure(ReadError) <==> LoadFile(fs, path).code == FileReadError
    ensures r.result == Failure(ParsingError) <==>
      IsParsingCode(LoadFile(fs, path).code)
      || (LoadFile(fs, path).code == XmlSuccess && !HasLibraryElement(LoadFile(fs, path).doc))
    ensures r.result == Failure(FileError) <==>
      IsUnexpectedCode(LoadFile(fs, path).code)
      || (IsBootstrapCode(LoadFile(fs, path).code) && !Writable(fs, path))
    ensures r.fs == if IsBootstrapCode(LoadFile(fs, path).code) then SaveLibrary(fs, path, DefaultTree()) else fs
    ensures r.result.Success? && LoadFile(fs, path).code == XmlSuccess ==>
      r.result.value == ParseLibrary(FirstChildElement(fs.files[path].doc, "library").value)
    ensures r.result.Success? && LoadFile(fs, path).code != XmlSuccess ==>
      IsBootstrapCode(LoadFile(fs, path).code) && r.result.value == DefaultTree()
  {
    var first := LoadFile(fs, path);
    match first.code
    case FileCouldNotBeOpened => LoadOutcome(Failure(OpenError), fs)
    case FileReadError => LoadOutcome(Failure(ReadError), fs)
    case Parsing | ParsingElement | ParsingAttribute | ParsingText | ParsingCdata
       | ParsingComment | ParsingDeclaration | ParsingUnknown =>
      LoadOutcome(Failure(ParsingError), fs)
    case FileNotFound | EmptyDocument => Bootstrap(fs, path)
    case XmlSuccess => LoadOutcome(FromDocument(first.doc), fs)
    case _ => LoadOutcome(Failure(FileError), fs)
  }

  /**
   * The empty path can be neither read nor written, so `Library("")` always
   * fails with FileError: not found, a bootstrap save that writes nothing,
   * then a reload that fails too.
   */
  lemma EmptyPathNeverLoads(fs: FileSystem)
    ensures Load(fs, "") == LoadOutcome(Failure(FileError), fs)
  {
  }

  /** Round trip through the file: loading what was saved to a writable path gives the same library and writes nothing. */
  lemma SaveThenLoad(fs: FileSystem, path: Path, t: LibraryTree)
    requires Writable(fs, path)
    ensures Load(SaveLibrary(fs, path, t), path) == LoadOutcome(Success(t), SaveLibrary(fs, path, t))
  {
    LibraryRoundTrip(t);
  }

  /**
   * Bootstrap: with no file at a writable path, loading yields the default
   * library and leaves it saved there, so that loading again reads the same
   * library back without writing.
   */
  lemma BootstrapOnMissingFile(fs: FileSystem, path: Path)
    requires path !in fs.files && Writable(fs, path)
    ensures Load(fs, path) == LoadOutcome(Success(DefaultTree()), SaveLibrary(fs, path, DefaultTree()))
    ensures Load(Load(fs, path).fs, path) == Load(fs, path)
  {
    SaveThenLoad(fs, path, DefaultTree());
  }

  /**
   * A library file whose top shelf lists a book before a sub-shelf loads with
   * the book among the shelf's books and the sub-shelf among its sub-shelves,
   * and writes nothing.
   */
  lemma LoadsExampleFile(fs: FileSystem, path: Path)
    requires path != "" && path in fs.files && fs.files[path] == Holds([ExampleElement()])
    ensures Load(fs, path) == LoadOutcome(Success(LibraryTree("alice", [
      Shelf("Fiction", [Shelf("Sci-Fi", [], [Book("Foundation", "")])], [Book("Dune", "/books/dune.epub")])])), fs)
  {
    var e := ExampleElement();
    assert FirstChildElement([e], "library") == Some(e);
    ExampleFictionParses();
    assert ParseShelfs(e.children) == [ParseShelf(e.children[0])];
  }

  function ExampleElement(): Element
  {
    Element("library", map["owner" := "alice"], [
      Element("shelf", map["name" := "Fiction"], [
        Element("book", map["name" := "Dune", "location" := "/books/dune.epub"], []),
        Element("shelf", map["name" := "Sci-Fi"], [
          Element("book", map["name" := "Foundation", "location" := ""], [])])])])
  }

  lemma ExampleFictionParses()
    ensures ParseShelf(ExampleElement().children[0])
         == Shelf("Fiction", [Shelf("Sci-Fi", [], [Book("Foundation", "")])], [Book("Dune", "/books/dune.epub")])
  {
    var fiction := ExampleElement().children[0];
    var dune, scifi := fiction.children[0], fiction.children[1];
    assert ParseShelf(scifi) == Shelf("Sci-Fi", [], [Book("Foundation", "")]) by {
      assert ParseShelfs(scifi.children) == [];
      assert ParseBooks(scifi.children) == [ParseBook(scifi.children[0])];
    }
    assert ParseShelfs(fiction.children) == [ParseShelf(scifi)] by {
      assert fiction.children[1..] == [scifi];
    }
    assert ParseBooks(fiction.children) == [ParseBook(dune)] by {
      assert fiction.children[1..] == [scifi];
    }
  }

  // ---------------------------------------------------------------------------
  // The library object

  class Library {
    var owner: string
    var libraryPath: Path
    var shelfs: seq<Shelf>

    /** The contents, without the path. */
    function Tree(): LibraryTree
      reads this
    {
      LibraryTree(owner, shelfs)
    }

    /** `Library()`: owner "unknown", no path, one shelf "default" holding one book "New Book" with no location. */
    constructor ()
      ensures owner == UnknownOwner && libraryPath == ""
      ensures shelfs == [Shelf("default", [], [Book("New Book", "")])]
      ensures Tree() == DefaultTree()
    {
      owner, libraryPath, shelfs := UnknownOwner, "", [];
      new;
      shelfs := shelfs + [NewShelf("default")];
      assert shelfs == [NewShelf("default")];
      var last := |shelfs| - 1;
      assert shelfs[last].books + [NewBook("New Book")] == [Book("New Book", "")];
      shelfs := shelfs[last := shelfs[last].(books := shelfs[last].books + [NewBook("New Book")])];
    }

    /** The object `Library(path)` completes once loading succeeded. */
    constructor Loaded(path: Path, t: LibraryTree)
      ensures Tree() == t && libraryPath == path
    {
      owner, libraryPath, shelfs := t.owner, path, t.shelfs;
    }

    /**
     * `Library::deleteShelf`: each top-level shelf searches below itself, in
     * order. A top-level shelf is never compared with the target, so only
     * shelves at depth two or more can be deleted; a deleted shelf takes its
     * sub-shelves and books with it, and on false nothing changes.
     */
    method DeleteShelf(target: ShelfAddress) returns (deleted: bool)
      modifies this
      ensures deleted == (|target| > 1 && IsShelfPath(Root(old(shelfs)), target))
      ensures shelfs == if deleted then WithoutShelf(Root(old(shelfs)), target).subshelfs else old(shelfs)
      ensures owner == old(owner) && libraryPath == old(libraryPath)
    {
      var i := 0;
      while i < |shelfs|
        invariant i <= |shelfs| && shelfs == old(shelfs)
        invariant owner == old(owner) && libraryPath == old(libraryPath)
        invariant forall k :: 0 <= k < i ==> !HoldsShelf(shelfs[k], [k], target)
      {
        var found, shelf := Edits.DeleteShelf(shelfs[i], [i], target);
        if found {
          assert [] + [i] == [i];
          HoldsShelfInChild(Root(shelfs), [], i, target);
          shelfs := shelfs[i := shelf];
          return true;
        }
        i := i + 1;
      }
      RootShelfSplit(shelfs, target);
      return false;
    }

    /**
     * `Library::deleteBook`: each top-level shelf searches its own books and
     * then below itself, in order. Any book can be deleted, the books of a
     * top-level shelf included; on false nothing changes.
     */
    method DeleteBook(target: BookAddress) returns (deleted: bool)
      modifies this
      ensures deleted == IsBookPath(Root(old(shelfs)), target.shelf, target.index)
      ensures shelfs == if deleted then WithoutBook(Root(old(shelfs)), target.shelf, target.index).subshelfs else old(shelfs)
      ensures owner == old(owner) && libraryPath == old(libraryPath)
    {
      var i := 0;
      while i < |shelfs|
        invariant i <= |shelfs| && shelfs == old(shelfs)
        invariant owner == old(owner) && libraryPath == old(libraryPath)
        invariant forall k :: 0 <= k < i ==> !HoldsBook(shelfs[k], [k], target)
      {
        var found, shelf := Edits.DeleteBook(shelfs[i], [i], target);
        if found {
          assert [] + [i] == [i];
          HoldsBookInChild(Root(shelfs), [], i, target);
          assert target.shelf[0..] == target.shelf;
          shelfs := shelfs[i := shelf];
          return true;
        }
        i := i + 1;
      }
      RootBookSplit(shelfs, target);
      return false;
    }

    /**
     * The library window's "Add Shelf": an empty shelf appended to the
     * sub-shelves of the selected shelf, or to the top-level shelves when no
     * shelf is selected (the empty address).
     */
    method AddShelf(at: ShelfAddress)
      requires Reaches(Root(shelfs), at)
      modifies this
      ensures shelfs == WithShelfAppended(Root(old(shelfs)), at).subshelfs
      ensures owner == old(owner) && libraryPath == old(libraryPath)
    {
      shelfs := WithShelfAppended(Root(shelfs), at).subshelfs;
    }

    /**
     * The library window's "Add Book": an empty book appended to the books of
     * the selected shelf; with no shelf selected (the empty address) nothing
     * happens.
     */
    method AddBook(at: ShelfAddress)
      requires Reaches(Root(shelfs), at)
      modifies this
      ensures shelfs == if |at| > 0 then WithBookAppended(Root(old(shelfs)), at).subshelfs else old(shelfs)
      ensures owner == old(owner) && libraryPath == old(libraryPath)
    {
      if |at| > 0 {
        shelfs := WithBookAppended(Root(shelfs), at).subshelfs;
      }
    }

    /** `Library::save(path)`; loading the path afterwards gives this library back when the path is writable. */
    method SaveTo(path: Path, fs: FileSystem) returns (fs': FileSystem)
      ensures fs' == SaveLibrary(fs, path, Tree())
      ensures Writable(fs, path) ==> Load(fs', path) == LoadOutcome(Success(Tree()), fs')
      ensures !Writable(fs, path) ==> fs' == fs
    {
      fs' := SaveLibrary(fs, path, Tree());
      if Writable(fs, path) {
        SaveThenLoad(fs, path, Tree());
      }
    }

    /** `Library::save()`: saves to the path it was loaded from; a library built by `Library()` has none and writes nothing. */
    method Save(fs: FileSystem) returns (fs': FileSystem)
      ensures fs' == SaveLibrary(fs, libraryPath, Tree())
      ensures libraryPath == "" ==> fs' == fs
    {
      fs' := SaveTo(libraryPath, fs);
    }
  }

  /**
   * `Library(path)` as a whole: a new library object holding what `Load`
   * yields and remembering `path`, or the error it throws.
   */
  method Open(path: Path, fs: FileSystem) returns (r: Result<Library, LoadError>, fs': FileSystem)
    ensures fs' == Load(fs, path).fs
    ensures r.Success? <==> Load(fs, path).result.Success?
    ensures r.Failure? ==> r.error == Load(fs, path).result.error
    ensures r.Success? ==> fresh(r.value) && r.value.libraryPath == path && r.value.Tree() == Load(fs, path).result.value
  {
    var outcome := Load(fs, path);
    fs' := outcome.fs;
    if outcome.result.Success? {
      var library := new Library.Loaded(path, outcome.result.value);
      r := Success(library);
    } else {
      r := Failure(outcome.result.error);
    }
  }
}
