# honmonogatari library storage, in Dafny

This project models the library storage of honmonogatari (`src/storage.h`,
`src/storage.cpp`, namespace `storage`). A `Library` has an owner, the path
it was loaded from, and an ordered list of shelves. A `LibraryShelf` has a
name, ordered sub-shelves and ordered books. A `LibraryBook` has a name and a
location. The library is loaded from an XML file and saved back to it. When
the file is missing or empty, loading first writes a default library there.
Shelves and books are deleted by searching the tree for the slot that holds
them.

Modules:

- `Wrappers` (wrappers.dfy): `Option` and `Result`.
- `Xml` (xml.dfy): the part of tinyxml2 the storage code uses, as values.
  This covers elements with tag, attributes and children; the
  `FirstChildElement`/`NextSiblingElement` walk; the `XMLError` codes; and
  an abstract file system that `LoadFile` reads and `SaveFile` writes.
- `Shelves` (shelves.dfy): books, shelves and library contents as datatypes.
  It also holds the constructors that parse an `XMLElement`, the
  `serialize` methods, and the round-trip proofs.
- `Edits` (edits.dfy): `LibraryShelf::deleteShelf` and
  `LibraryShelf::deleteBook` as methods with the source's two loops. Also
  their specification functions, the document-order view of a tree, and the
  appends done by the library window's Add menu.
- `Storage` (storage.dfy): loading with its error mapping and bootstrap,
  saving, and the `Library` class with its deletes, appends and saves.

Modelling choices:

- **Node identity.** The source names a shelf or book by a pointer into the
  vector slot that holds it. The model names a slot by its index path from
  the library: `[i]` is `shelfs[i]`, `[i, j]` is its sub-shelf `j`, and
  `BookAddress(p, k)` is book `k` of the shelf at `p`. Two slots have the
  same address only when they are the same slot. So each comparison in the
  delete loops matches at most one slot.
- **Shelves are values.** A shelf is owned by value, so the shelf-level
  delete returns the updated shelf and the caller stores it back. The
  `Library` class holds the fields `owner`, `libraryPath` and `shelfs`, and
  its methods change them.
- **File system.** A path holds an empty file, a well-formed document, or a
  file whose loading fails with a given code. Some paths cannot be written.
  The empty path is never readable or writable, because opening `""`
  fails: loading it reports not-found whatever the map holds under it.
  tinyxml2's `SaveFile` returns an error code, but `Library::save` discards
  it (storage.cpp:179), so the model's `SaveFile` yields only the new file
  system: when the path cannot be written, nothing changes. This
  keeps the source's check after the bootstrap write meaningful: the reload
  fails, and loading throws `FileError`.
- **Error kinds.** The source's exceptions are a `LoadError` value:
  `OpenError`, `ReadError`, `ParsingError` or plain `FileError`.

What the code does where a reading of its comments might expect otherwise:

- The load switch (storage.cpp:109-139) has no case for
  `XML_ERROR_MISMATCHED_ELEMENT` or `XML_ELEMENT_DEPTH_EXCEEDED`. Both
  describe malformed XML, but they reach `default` and give `FileError`, not
  `ParsingError`. The model follows the code.
- `Library::deleteShelf` only asks each top-level shelf to search its
  sub-shelves. So a top-level shelf is never deleted, while a top-level
  shelf's books can be. The model keeps this.
- `erase` moves the later siblings down one slot. A second delete through
  the same pointer therefore removes the sibling that moved into the slot,
  if there is one (`Edits.SlotRefilledByNextSibling`). The library window
  avoids this by clearing its selection after a successful delete.

## Model

| member | source | states |
|---|---|---|
| `Xml.ChildElements` | src/storage.cpp:37-38 | the walk over children by tag visits only children that carry that tag |
| `Xml.FirstChildElement` | src/storage.cpp:142 | gives an element exactly when one with the tag exists, and then the first such in document order |
| `Xml.LoadFile` | src/storage.cpp:106 | success exactly for a well-formed document stored at a non-empty path, which it yields; file-not-found exactly for the empty path, a missing path, or a file that reports not-found; empty-document exactly for an empty file or one that reports it; no document on failure |
| `Xml.SaveFile` | src/storage.cpp:179 | on a writable path the document is stored and loads back as it was; otherwise nothing changes; other paths are untouched |
| `Shelves.EmptyBook` | src/storage.h:33 | `LibraryBook()` is named "<untitled>" with location "", the same as parsing a `book` element with no attributes |
| `Shelves.NewBook` | src/storage.h:46 | `LibraryBook(name, location = "")` keeps both values, and serialising then parsing gives it back |
| `Shelves.EmptyShelf` | src/storage.h:91 | `LibraryShelf()` is named "<unnamed>" and is empty, the same as parsing a bare `shelf` element |
| `Shelves.NewShelf` | src/storage.h:103 | `LibraryShelf(name)` has that name and no sub-shelves or books, and serialising then parsing gives it back |
| `Shelves.ParseBook` | src/storage.cpp:7-18 | each present attribute is copied verbatim; a missing name gives "<untitled>" and a missing location gives "" |
| `Shelves.ParseShelfLayout` | src/storage.cpp:30-45 | name is the attribute or "<unnamed>"; sub-shelves are the `shelf` children and books the `book` children, each in document order |
| `Shelves.ParseShelfIgnoresOtherTags` | src/storage.cpp:36-44 | a child that is neither `shelf` nor `book` does not change the parsed shelf |
| `Shelves.ParseShelfsIsWalk` | src/storage.cpp:37-39 | the parsed sub-shelves correspond one to one, in order, to the `shelf` children |
| `Shelves.ParseBooksIsWalk` | src/storage.cpp:42-44 | the parsed books correspond one to one, in order, to the `book` children |
| `Shelves.ParseLibrary` | src/storage.cpp:145-153 | the owner is the attribute, or "unknown" when it is absent; the shelves correspond one to one, in document order, to the `shelf` children |
| `Shelves.SerializeBook` | src/storage.cpp:20-28 | a `book` element with no children and exactly the attributes name and location, holding the book's values |
| `Shelves.SerializeLibraryLayout` | src/storage.cpp:182-192 | a `library` element with exactly the owner attribute and one serialised `shelf` child per shelf, in order |
| `Shelves.SerializeShelfLayout` | src/storage.cpp:83-95 | a `shelf` element with exactly the name attribute; children are every sub-shelf in order, then every book in order, each book with both name and location |
| `Shelves.BookRoundTrip` | src/storage.cpp:7-28 | parsing a serialised book gives the same book |
| `Shelves.ShelfRoundTrip` | src/storage.cpp:30-95 | parsing a serialised shelf gives the same shelf: names, books and sub-shelf order at every depth |
| `Shelves.ShelfsRoundTrip` | src/storage.cpp:89-92 | parsing serialised sub-shelves gives them back in order, and no books |
| `Shelves.LibraryRoundTrip` | src/storage.cpp:145-192 | parsing a serialised library gives the same owner and shelves |
| `Edits.DeleteShelf` | src/storage.cpp:47-63 | true exactly when the target is a sub-shelf slot at some depth below this shelf, and then that subtree is erased from its parent; false leaves the shelf unchanged; its own slot is never matched |
| `Edits.DeleteBook` | src/storage.cpp:65-81 | true exactly when the target is a book slot of this shelf or of a sub-shelf at any depth, and then that book is erased; false leaves the shelf unchanged |
| `Edits.WithoutShelfItems` | src/storage.h:112-121 | erasing a shelf removes exactly its subtree (itself, its books and sub-shelves), a contiguous run in document order, and keeps everything else in order |
| `Edits.WithoutBookItems` | src/storage.h:122-129 | erasing a book removes exactly that one book in document order and keeps everything else in order |
| `Edits.SlotRefilledByNextSibling` | src/storage.cpp:51-53 | after erasing, the same address names the next sibling if there was one, and nothing otherwise |
| `Edits.ShelfPathReaches` | src/graphics/windows.cpp:30-40 | a selected shelf is named the same way by the delete and the append paths: a sub-shelf path is exactly a non-empty reaching path, to the same shelf |
| `Edits.AppendShelfThenDelete` | src/graphics/windows.cpp:30-36 | an appended shelf is an empty "<unnamed>" shelf in the slot after the last sub-shelf; deleting that slot restores the tree |
| `Edits.AppendBookThenDelete` | src/graphics/windows.cpp:38-40 | an appended book is "<untitled>" with no location, after the last book; deleting that slot restores the tree |
| `Storage.Load` | src/storage.cpp:103-148 | OpenError, ReadError and ParsingError each arise exactly from their codes (or a document with no `library` element); FileError from any other code or a failed bootstrap reload; only the bootstrap writes; success is the file's library, or the default after the bootstrap |
| `Storage.Bootstrap` | src/storage.cpp:125-132 | after a missing or empty file the default library is saved to the path; the reload yields it when the path is writable and FileError otherwise |
| `Storage.EmptyPathNeverLoads` | src/storage.cpp:125-132 | loading the empty path always fails with FileError and writes nothing: not found, a save that cannot write, a reload that fails |
| `Storage.SaveThenLoad` | src/storage.cpp:172-192 | loading what was saved to a writable path yields the same library and writes nothing |
| `Storage.BootstrapOnMissingFile` | src/storage.cpp:125-132 | a missing file at a writable path yields the default library and leaves it saved, so loading again reads the same without writing |
| `Storage.LoadsExampleFile` | src/storage.cpp:141-153 | a concrete file loads with owner "alice"; its shelf "Fiction" gets book "Dune" and sub-shelf "Sci-Fi" holding "Foundation" |
| `Storage.Library.constructor` | src/storage.cpp:97-101 | owner "unknown", empty path, exactly one shelf "default" holding exactly one book "New Book" with location "" |
| `Storage.Library.Loaded` | src/storage.cpp:103 | the library built after a successful load holds the loaded contents and remembers the path |
| `Storage.Library.DeleteShelf` | src/storage.cpp:156-162 | true exactly for a shelf at depth two or more, so a top-level shelf is never deleted; then that subtree is gone; false changes nothing; owner and path are kept |
| `Storage.Library.DeleteBook` | src/storage.cpp:164-170 | true exactly for an existing book slot at any depth, top-level shelves' books included; then that book is gone; false changes nothing |
| `Storage.Library.AddShelf` | src/graphics/windows.cpp:30-36 | appends an empty shelf to the selected shelf, or to the top level when nothing is selected |
| `Storage.Library.AddBook` | src/graphics/windows.cpp:38-40 | appends an empty book to the selected shelf; with no shelf selected nothing changes |
| `Storage.Library.SaveTo` | src/storage.cpp:172-180 | stores the serialised library at a writable path, and loading it back yields this library; otherwise nothing changes |
| `Storage.Library.Save` | src/storage.h:234-240 | saving is saving to the stored path; a library built by `Library()` has no path and writes nothing |
| `Storage.Open` | src/storage.cpp:103-154 | `Library(path)` gives a new library with the loaded contents and the path, or exactly the error `Load` gives; the file system afterwards is the one `Load` gives |

## Left out

- The XML text layer is not modelled: character escaping, whitespace,
  encoding, the XML declaration node written by `save`, and non-element
  nodes. A document is its list of top-level elements.
- Storage.SaveThenLoad, Storage.Library.SaveTo, Shelves.LibraryRoundTrip: the
  serialisers pass names, locations and the owner as C strings, so a string
  with an embedded NUL character is cut at the NUL when saved and does not
  survive the file. The model keeps strings whole, so these round trips are
  stated for every string, including ones the real file would truncate.
- Xml.SaveFile, Storage.SaveThenLoad, Storage.Library.SaveTo: the model
  takes every saved document to load back. tinyxml2's limit on element
  nesting depth is not modelled. A library whose shelves nest past that
  limit is written by `save`, but loading it reports a depth error, which
  `Library(path)` turns into FileError through its `default` case. The
  model instead says it loads.
- Real disk I/O is not modelled. Loading and saving act on an abstract file
  system value. The exception message texts, which include the path, are
  not modelled.
- `begin()`/`end()` on `LibraryShelf` and `Library` are the iterators of the
  `books` and `shelfs` vectors. The model exposes those sequences
  directly, so iteration is indexing in order, and an empty sequence has
  nothing to visit. There is no separate member.
- `getName`, `getLocation` and `getOwner` return mutable references. In the
  model, `owner` is an assignable field of `Library`. Names and locations
  inside the tree change by datatype update. No rename operation is
  modelled, because the source has none beyond the reference.
- `Edits.DeleteShelf`, `Edits.DeleteBook`: shelves are values, so these
  return the updated shelf instead of changing it in place. The library's
  methods store the result back into `shelfs`.
- A pointer in the source can dangle after a vector reallocates, for example
  after an append. An index-path address cannot dangle; it keeps naming its
  slot. This undefined behaviour is not modelled.
- The library window's other actions (rendering, selection, menus) and the
  rest of the application (graphics, settings, style files) are not part of
  this model.
