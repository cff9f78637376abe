/**
 * Structural edits of the library tree: `LibraryShelf::deleteShelf`,
 * `LibraryShelf::deleteBook` and the appends the library window performs.
 *
 * The source identifies a shelf or a book by a pointer to the vector slot that
 * holds it. A slot is named here by its index path from the library: the
 * top-level shelf `shelfs[i]` is `[i]`, its sub-shelf `subshelfs[j]` is
 * `[i, j]`, and the book `books[k]` of the shelf at `p` is `BookAddress(p, k)`.
 * Two slots have the same address exactly when they are the same slot, so the
 * comparison in each delete loop matches at most one slot.
 */
module Edits {
  import opened Xml
  import opened Shelves

  type ShelfAddress = seq<nat>

  datatype BookAddress = BookAddress(shelf: ShelfAddress, index: nat)

  /** The library's shelves seen as the sub-shelves of one nameless root: its paths are the library's addresses. */
  function Root(shelfs: seq<Shelf>): Shelf
  {
    Shelf("", shelfs, [])
  }

  // ---------------------------------------------------------------------------
  // Paths below a shelf

  /** `q` leads from `s` to a sub-shelf at some depth (not to `s` itself). */
  predicate IsShelfPath(s: Shelf, q: seq<nat>)
    decreases |q|
  {
    |q| > 0 && q[0] < |s.subshelfs| && (|q| == 1 || IsShelfPath(s.subshelfs[q[0]], q[1..]))
  }

  /** The sub-shelf that `q` leads to. */
  function ShelfAt(s: Shelf, q: seq<nat>): Shelf
    requires IsShelfPath(s, q)
    decreases |q|
  {
    if |q| == 1 then s.subshelfs[q[0]] else ShelfAt(s.subshelfs[q[0]], q[1..])
  }

  /** `s` with the sub-shelf that `q` leads to erased from its parent's sub-shelves. */
  function WithoutShelf(s: Shelf, q: seq<nat>): Shelf
    requires IsShelfPath(s, q)
    decreases |q|
  {
    var k := q[0];
    if |q| == 1 then s.(subshelfs := s.subshelfs[..k] + s.subshelfs[k + 1..])
    else s.(subshelfs := s.subshelfs[k := WithoutShelf(s.subshelfs[k], q[1..])])
  }

  /** `q` leads from `s` to `s` itself (when empty) or to a sub-shelf, which has a book at `i`. */
  predicate IsBookPath(s: Shelf, q: seq<nat>, i: nat)
    decreases |q|
  {
    if |q| == 0 then i < |s.books|
    else q[0] < |s.subshelfs| && IsBookPath(s.subshelfs[q[0]], q[1..], i)
  }

  function BookAt(s: Shelf, q: seq<nat>, i: nat): Book
    requires IsBookPath(s, q, i)
    decreases |q|
  {
    if |q| == 0 then s.books[i] else BookAt(s.subshelfs[q[0]], q[1..], i)
  }

  /** `s` with that book erased from its shelf's books. */
  function WithoutBook(s: Shelf, q: seq<nat>, i: nat): Shelf
    requires IsBookPath(s, q, i)
    decreases |q|
  {
    if |q| == 0 then s.(books := s.books[..i] + s.books[i + 1..])
    else s.(subshelfs := s.subshelfs[q[0] := WithoutBook(s.subshelfs[q[0]], q[1..], i)])
  }

  // ---------------------------------------------------------------------------
  // Absolute addresses

  /** The shelf at address `here` is `s`; `target` addresses a sub-shelf of it at some depth. */
  predicate HoldsShelf(s: Shelf, here: ShelfAddress, target: ShelfAddress)
  {
    |here| < |target| && target[..|here|] == here && IsShelfPath(s, target[|here|..])
  }

  /** The shelf at address `here` is `s`; `target` addresses a book of it or of a sub-shelf at some depth. */
  predicate HoldsBook(s: Shelf, here: ShelfAddress, target: BookAddress)
  {
    |here| <= |target.shelf| && target.shelf[..|here|] == here
    && IsBookPath(s, target.shelf[|here|..], target.index)
  }

  lemma HoldsShelfDirect(s: Shelf, here: ShelfAddress, k: nat)
    requires k < |s.subshelfs|
    ensures HoldsShelf(s, here, here + [k])
    ensures (here + [k])[|here|..] == [k]
  {
    assert (here + [k])[..|here|] == here;
    assert (here + [k])[|here|..] == [k];
  }

  /** Where the target lies below the child `k` of `s`, it lies below `s`, and erasing it edits child `k` only. */
  lemma HoldsShelfInChild(s: Shelf, here: ShelfAddress, k: nat, target: ShelfAddress)
    requires k < |s.subshelfs| && HoldsShelf(s.subshelfs[k], here + [k], target)
    ensures HoldsShelf(s, here, target)
    ensures WithoutShelf(s, target[|here|..])
         == s.(subshelfs := s.subshelfs[k := WithoutShelf(s.subshelfs[k], target[|here| + 1..])])
  {
    var q := target[|here|..];
    assert target[..|here|] == target[..|here| + 1][..|here|];
    assert q[0] == target[|here|] == (here + [k])[|here|] == k;
    assert q[1..] == target[|here| + 1..];
  }

  /** A target below `s` is either a direct sub-shelf slot or lies below one of the sub-shelves. */
  lemma HoldsShelfSplit(s: Shelf, here: ShelfAddress, target: ShelfAddress)
    ensures HoldsShelf(s, here, target) ==>
              target[|here|] < |s.subshelfs|
              && (here + [target[|here|]] == target
                  || HoldsShelf(s.subshelfs[target[|here|]], here + [target[|here|]], target))
  {
    if HoldsShelf(s, here, target) {
      var k := target[|here|];
      var q := target[|here|..];
      assert target[..|here| + 1] == here + [k];
      if |q| > 1 {
        assert q[1..] == target[|here| + 1..];
      } else {
        assert target == target[..|here| + 1];
      }
    }
  }

  /** A shelf address below the library root lies below one of the top-level shelves. */
  lemma RootShelfSplit(shelfs: seq<Shelf>, target: ShelfAddress)
    ensures |target| > 1 && IsShelfPath(Root(shelfs), target) ==>
              target[0] < |shelfs| && HoldsShelf(shelfs[target[0]], [target[0]], target)
  {
    if |target| > 1 && IsShelfPath(Root(shelfs), target) {
      assert target[..0] == [] && target[0..] == target;
      assert [] + [target[0]] == [target[0]];
      HoldsShelfSplit(Root(shelfs), [], target);
    }
  }

  lemma HoldsBookDirect(s: Shelf, here: ShelfAddress, i: nat)
    requires i < |s.books|
    ensures HoldsBook(s, here, BookAddress(here, i))
    ensures WithoutBook(s, [], i) == s.(books := s.books[..i] + s.books[i + 1..])
  {
    assert here[|here|..] == [];
  }

  lemma HoldsBookInChild(s: Shelf, here: ShelfAddress, k: nat, target: BookAddress)
    requires k < |s.subshelfs| && HoldsBook(s.subshelfs[k], here + [k], target)
    ensures HoldsBook(s, here, target)
    ensures WithoutBook(s, target.shelf[|here|..], target.index)
         == s.(subshelfs := s.subshelfs[k := WithoutBook(s.subshelfs[k], target.shelf[|here| + 1..], target.index)])
  {
    var p := target.shelf;
    var q := p[|here|..];
    assert p[..|here|] == p[..|here| + 1][..|here|];
    assert q[0] == p[|here|] == (here + [k])[|here|] == k;
    assert q[1..] == p[|here| + 1..];
  }

  lemma HoldsBookSplit(s: Shelf, here: ShelfAddress, target: BookAddress)
    ensures HoldsBook(s, here, target) ==>
              (target == BookAddress(here, target.index) && target.index < |s.books|)
              || (|here| < |target.shelf| && target.shelf[|here|] < |s.subshelfs|
                  && HoldsBook(s.subshelfs[target.shelf[|here|]], here + [target.shelf[|here|]], target))
  {
    if HoldsBook(s, here, target) {
      var p := target.shelf;
      if |p| == |here| {
        assert p == p[..|here|];
        assert p[|here|..] == [];
      } else {
        var k := p[|here|];
        var q := p[|here|..];
        assert p[..|here| + 1] == here + [k];
        assert q[1..] == p[|here| + 1..];
      }
    }
  }

  /** A book address below the library root lies below one of the top-level shelves. */
  lemma RootBookSplit(shelfs: seq<Shelf>, target: BookAddress)
    ensures IsBookPath(Root(shelfs), target.shelf, target.index) ==>
              |target.shelf| > 0 && target.shelf[0] < |shelfs|
              && HoldsBook(shelfs[target.shelf[0]], [target.shelf[0]], target)
  {
    if IsBookPath(Root(shelfs), target.shelf, target.index) {
      assert target.shelf[..0] == [] && target.shelf[0..] == target.shelf;
      assert |target.shelf| > 0 ==> [] + [target.shelf[0]] == [target.shelf[0]];
      HoldsBookSplit(Root(shelfs), [], target);
    }
  }

  // ---------------------------------------------------------------------------
  // The delete methods of LibraryShelf

  /**
   * `LibraryShelf::deleteShelf` on the shelf `s` whose slot is `here`: first
   * the direct sub-shelf slots are compared with `target` and a match is
   * erased; otherwise each sub-shelf is searched in turn. It reports true
   * exactly when `target` addresses a sub-shelf of `s` at some depth, and then
   * that sub-shelf is gone with everything on it; on false `s` is unchanged.
   * The slot `here` itself is never compared with `target`.
   */
  method DeleteShelf(s: Shelf, here: ShelfAddress, target: ShelfAddress) returns (deleted: bool, s': Shelf)
    ensures deleted == HoldsShelf(s, here, target)
    ensures s' == if deleted then WithoutShelf(s, target[|here|..]) else s
    decreases s
  {
    var i := 0;
    while i < |s.subshelfs|
      invariant i <= |s.subshelfs|
      invariant forall k :: 0 <= k < i ==> here + [k] != target
    {
      if here + [i] == target {
        HoldsShelfDirect(s, here, i);
        return true, s.(subshelfs := s.subshelfs[..i] + s.subshelfs[i + 1..]);
      }
      i := i + 1;
    }
    i := 0;
    while i < |s.subshelfs|
      invariant i <= |s.subshelfs|
      invariant forall k :: 0 <= k < i ==> !HoldsShelf(s.subshelfs[k], here + [k], target)
    {
      var found, sub := DeleteShelf(s.subshelfs[i], here + [i], target);
      if found {
        HoldsShelfInChild(s, here, i, target);
        return true, s.(subshelfs := s.subshelfs[i := sub]);
      }
      i := i + 1;
    }
    HoldsShelfSplit(s, here, target);
    return false, s;
  }

  /**
   * `LibraryShelf::deleteBook` on the shelf `s` whose slot is `here`: its own
   * book slots first, then each sub-shelf in turn. It reports true exactly
   * when `target` addresses a book of `s` or of a sub-shelf at some depth, and
   * then that one book is gone; on false `s` is unchanged.
   */
  method DeleteBook(s: Shelf, here: ShelfAddress, target: BookAddress) returns (deleted: bool, s': Shelf)
    ensures deleted == HoldsBook(s, here, target)
    ensures s' == if deleted then WithoutBook(s, target.shelf[|here|..], target.index) else s
    decreases s
  {
    var i := 0;
    while i < |s.books|
      invariant i <= |s.books|
      invariant forall k :: 0 <= k < i ==> BookAddress(here, k) != target
    {
      if BookAddress(here, i) == target {
        HoldsBookDirect(s, here, i);
        assert target.shelf[|here|..] == [];
        return true, s.(books := s.books[..i] + s.books[i + 1..]);
      }
      i := i + 1;
    }
    i := 0;
    while i < |s.subshelfs|
      invariant i <= |s.subshelfs|
      invariant forall k :: 0 <= k < i ==> !HoldsBook(s.subshelfs[k], here + [k], target)
    {
      var found, sub := DeleteBook(s.subshelfs[i], here + [i], target);
      if found {
        HoldsBookInChild(s, here, i, target);
        return true, s.(subshelfs := s.subshelfs[i := sub]);
      }
      i := i + 1;
    }
    HoldsBookSplit(s, here, target);
    return false, s;
  }

  // ---------------------------------------------------------------------------
  // What a delete keeps: the tree in document order

  /** One node of the tree as it appears in document order. */
  datatype Item = ShelfItem(name: string) | BookItem(book: Book)

  /** The nodes of `s` in the order the library window draws them and `serialize` writes them. */
  function Items(s: Shelf): seq<Item>
    decreases s, 1
  {
    [ShelfItem(s.name)] + ItemsOf(s.subshelfs) + BookItems(s.books)
  }

  function ItemsOf(ss: seq<Shelf>): seq<Item>
    decreases ss, 0
  {
    if ss == [] then [] else Items(ss[0]) + ItemsOf(ss[1..])
  }

  function BookItems(bs: seq<Book>): (r: seq<Item>)
    ensures |r| == |bs|
  {
    if bs == [] then [] else [BookItem(bs[0])] + BookItems(bs[1..])
  }

  lemma {:induction false} ItemsOfAppend(a: seq<Shelf>, b: seq<Shelf>)
    ensures ItemsOf(a + b) == ItemsOf(a) + ItemsOf(b)
  {
    if a == [] {
      assert a + b == b;
    } else {
      assert (a + b)[0] == a[0] && (a + b)[1..] == a[1..] + b;
      ItemsOfAppend(a[1..], b);
    }
  }

  lemma {:induction false} BookItemsAppend(a: seq<Book>, b: seq<Book>)
    ensures BookItems(a + b) == BookItems(a) + BookItems(b)
  {
    if a == [] {
      assert a + b == b;
    } else {
      assert (a + b)[0] == a[0] && (a + b)[1..] == a[1..] + b;
      BookItemsAppend(a[1..], b);
    }
  }

  /** The items of a list of shelves, cut around the shelf at `k`. */
  lemma ItemsOfAround(ss: seq<Shelf>, k: nat)
    requires k < |ss|
    ensures ItemsOf(ss) == ItemsOf(ss[..k]) + Items(ss[k]) + ItemsOf(ss[k + 1..])
  {
    var rest := ss[k..];
    assert ss[..k] + rest == ss;
    ItemsOfAppend(ss[..k], rest);
    assert rest[0] == ss[k] && rest[1..] == ss[k + 1..];
    assert ItemsOf(rest) == Items(ss[k]) + ItemsOf(ss[k + 1..]);
    Assoc(ItemsOf(ss[..k]), Items(ss[k]), ItemsOf(ss[k + 1..]));
  }

  /** The items of a list of books, cut around the book at `i`. */
  lemma BookItemsAround(bs: seq<Book>, i: nat)
    requires i < |bs|
    ensures BookItems(bs) == BookItems(bs[..i]) + [BookItem(bs[i])] + BookItems(bs[i + 1..])
  {
    var rest := bs[i..];
    assert bs[..i] + rest == bs;
    BookItemsAppend(bs[..i], rest);
    assert rest[0] == bs[i] && rest[1..] == bs[i + 1..];
    assert BookItems(rest) == [BookItem(bs[i])] + BookItems(bs[i + 1..]);
    Assoc(BookItems(bs[..i]), [BookItem(bs[i])], BookItems(bs[i + 1..]));
  }

  lemma Slices<T>(whole: seq<T>, pre: seq<T>, x: seq<T>, post: seq<T>)
    requires whole == pre + x + post
    ensures whole[..|pre|] == pre && whole[|pre|..|pre| + |x|] == x && whole[|pre| + |x|..] == post
  {
  }

  /** Where the subtree that `q` leads to starts among the items of `s`. */
  function ShelfOffset(s: Shelf, q: seq<nat>): nat
    requires IsShelfPath(s, q)
    decreases |q|
  {
    var k := q[0];
    1 + |ItemsOf(s.subshelfs[..k])| + (if |q| == 1 then 0 else ShelfOffset(s.subshelfs[k], q[1..]))
  }

  /** Where the book at `q`, `i` stands among the items of `s`. */
  function BookOffset(s: Shelf, q: seq<nat>, i: nat): nat
    requires IsBookPath(s, q, i)
    decreases |q|
  {
    if |q| == 0 then 1 + |ItemsOf(s.subshelfs)| + i
    else 1 + |ItemsOf(s.subshelfs[..q[0]])| + BookOffset(s.subshelfs[q[0]], q[1..], i)
  }

  /** `part` is the run of `whole` that starts at `off`, and `rest` is `whole` with that run taken out. */
  ghost predicate CutsOut(whole: seq<Item>, off: nat, part: seq<Item>, rest: seq<Item>)
  {
    off + |part| <= |whole| && whole[off..off + |part|] == part
    && rest == whole[..off] + whole[off + |part|..]
  }

  lemma CutsOutSplit(whole: seq<Item>, off: nat, part: seq<Item>, rest: seq<Item>)
    requires CutsOut(whole, off, part, rest)
    ensures whole == whole[..off] + part + whole[off + |part|..]
  {
    assert whole == whole[..off] + whole[off..off + |part|] + whole[off + |part|..];
  }

  lemma CutsOutOf(whole: seq<Item>, rest: seq<Item>, a: seq<Item>, x: seq<Item>, b: seq<Item>)
    requires whole == a + x + b && rest == a + b
    ensures CutsOut(whole, |a|, x, rest)
  {
    Slices(whole, a, x, b);
  }

  lemma CutsOutAround(a: seq<Item>, pre: seq<Item>, x: seq<Item>, post: seq<Item>, b: seq<Item>)
    ensures CutsOut(a + (pre + x + post) + b, |a| + |pre|, x, a + (pre + post) + b)
  {
    var whole := a + (pre + x + post) + b;
    assert whole == (a + pre) + x + (post + b);
    Slices(whole, a + pre, x, post + b);
  }

  /** A run cut out of a part is cut out of the whole that holds the part between `a` and `b`. */
  lemma CutsOutNested(whole: seq<Item>, off': nat, rest: seq<Item>,
                      a: seq<Item>, part: seq<Item>, partRest: seq<Item>, b: seq<Item>, off: nat, x: seq<Item>)
    requires CutsOut(part, off, x, partRest)
    requires whole == a + part + b && rest == a + partRest + b && off' == |a| + off
    ensures CutsOut(whole, off', x, rest)
  {
    var pre, post := part[..off], part[off + |x|..];
    CutsOutSplit(part, off, x, partRest);
    CutsOutAround(a, pre, x, post, b);
  }

  /**
   * Erasing the shelf at `q` removes exactly its subtree, which is one
   * contiguous run of the items of `s`, and keeps every other shelf and book
   * in its order.
   */
  lemma {:induction false} WithoutShelfItems(s: Shelf, q: seq<nat>)
    requires IsShelfPath(s, q)
    ensures CutsOut(Items(s), ShelfOffset(s, q), Items(ShelfAt(s, q)), Items(WithoutShelf(s, q)))
    decreases |q|
  {
    if |q| == 1 {
      WithoutDirectShelfItems(s, q[0]);
    } else {
      WithoutShelfItems(s.subshelfs[q[0]], q[1..]);
      WithoutNestedShelfItems(s, q);
    }
  }

  /** The items of `s` cut around its sub-shelf `k`. */
  lemma ItemsAroundChild(s: Shelf, k: nat)
    requires k < |s.subshelfs|
    ensures Items(s) == ([ShelfItem(s.name)] + ItemsOf(s.subshelfs[..k])) + Items(s.subshelfs[k])
                      + (ItemsOf(s.subshelfs[k + 1..]) + BookItems(s.books))
  {
    ItemsOfAround(s.subshelfs, k);
  }

  /** The items of shelves `ss` with the one at `k` replaced by `c`. */
  lemma ItemsOfReplaced(ss: seq<Shelf>, k: nat, c: Shelf)
    requires k < |ss|
    ensures ItemsOf(ss[k := c]) == ItemsOf(ss[..k]) + Items(c) + ItemsOf(ss[k + 1..])
  {
    var ss' := ss[k := c];
    ItemsOfAround(ss', k);
    assert ss'[..k] == ss[..k] && ss'[k + 1..] == ss[k + 1..];
  }

  lemma Regroup5<T>(h: seq<T>, a: seq<T>, x: seq<T>, b: seq<T>, t: seq<T>)
    ensures h + (a + x + b) + t == (h + a) + x + (b + t)
  {
  }

  /** The items of `s` with its sub-shelf `k` replaced by `child`. */
  lemma ItemsReplacingChild(s: Shelf, k: nat, child: Shelf)
    requires k < |s.subshelfs|
    ensures Items(s.(subshelfs := s.subshelfs[k := child]))
         == ([ShelfItem(s.name)] + ItemsOf(s.subshelfs[..k])) + Items(child)
            + (ItemsOf(s.subshelfs[k + 1..]) + BookItems(s.books))
  {
    var subs := s.subshelfs;
    ItemsOfReplaced(subs, k, child);
    assert Items(s.(subshelfs := subs[k := child]))
        == [ShelfItem(s.name)] + (ItemsOf(subs[..k]) + Items(child) + ItemsOf(subs[k + 1..])) + BookItems(s.books);
    Regroup5([ShelfItem(s.name)], ItemsOf(subs[..k]), Items(child), ItemsOf(subs[k + 1..]), BookItems(s.books));
  }

  /** The items of `s` with its sub-shelf `k` erased. */
  lemma ItemsWithoutChild(s: Shelf, k: nat)
    requires k < |s.subshelfs|
    ensures Items(WithoutShelf(s, [k])) == ([ShelfItem(s.name)] + ItemsOf(s.subshelfs[..k]))
                      + (ItemsOf(s.subshelfs[k + 1..]) + BookItems(s.books))
  {
    var subs := s.subshelfs;
    var h, a, b, t := [ShelfItem(s.name)], ItemsOf(subs[..k]), ItemsOf(subs[k + 1..]), BookItems(s.books);
    assert WithoutShelf(s, [k]) == s.(subshelfs := subs[..k] + subs[k + 1..]);
    ItemsOfAppend(subs[..k], subs[k + 1..]);
    assert Items(WithoutShelf(s, [k])) == h + (a + b) + t;
    Regroup5(h, a, [], b, t);
    assert a + [] == a;
  }

  lemma WithoutDirectShelfItems(s: Shelf, k: nat)
    requires k < |s.subshelfs|
    ensures CutsOut(Items(s), ShelfOffset(s, [k]), Items(s.subshelfs[k]), Items(WithoutShelf(s, [k])))
  {
    var subs := s.subshelfs;
    var a := [ShelfItem(s.name)] + ItemsOf(subs[..k]);
    var b := ItemsOf(subs[k + 1..]) + BookItems(s.books);
    ItemsAroundChild(s, k);
    ItemsWithoutChild(s, k);
    CutsOutOf(Items(s), Items(WithoutShelf(s, [k])), a, Items(subs[k]), b);
  }

  /** The items of `s` around its sub-shelf `k`, before and after replacing that sub-shelf by `child`. */
  lemma ChildShape(s: Shelf, k: nat, child: Shelf, a: seq<Item>, b: seq<Item>)
    requires k < |s.subshelfs|
    requires a == [ShelfItem(s.name)] + ItemsOf(s.subshelfs[..k])
    requires b == ItemsOf(s.subshelfs[k + 1..]) + BookItems(s.books)
    ensures Items(s) == a + Items(s.subshelfs[k]) + b
    ensures Items(s.(subshelfs := s.subshelfs[k := child])) == a + Items(child) + b
  {
    ItemsAroundChild(s, k);
    ItemsReplacingChild(s, k, child);
  }

  lemma WithoutNestedShelfItems(s: Shelf, q: seq<nat>)
    requires IsShelfPath(s, q) && |q| > 1
    requires CutsOut(Items(s.subshelfs[q[0]]), ShelfOffset(s.subshelfs[q[0]], q[1..]),
                     Items(ShelfAt(s, q)), Items(WithoutShelf(s.subshelfs[q[0]], q[1..])))
    ensures CutsOut(Items(s), ShelfOffset(s, q), Items(ShelfAt(s, q)), Items(WithoutShelf(s, q)))
  {
    var k, subs := q[0], s.subshelfs;
    var child := WithoutShelf(subs[k], q[1..]);
    var a := [ShelfItem(s.name)] + ItemsOf(subs[..k]);
    var b := ItemsOf(subs[k + 1..]) + BookItems(s.books);
    ChildShape(s, k, child, a, b);
    CutsOutNested(Items(s), ShelfOffset(s, q), Items(WithoutShelf(s, q)),
                  a, Items(subs[k]), Items(child), b, ShelfOffset(subs[k], q[1..]), Items(ShelfAt(s, q)));
  }

  /**
   * Erasing the book at `q`, `i` removes exactly that one item and keeps every
   * other shelf and book in its order.
   */
  lemma {:induction false} WithoutBookItems(s: Shelf, q: seq<nat>, i: nat)
    requires IsBookPath(s, q, i)
    ensures CutsOut(Items(s), BookOffset(s, q, i), [BookItem(BookAt(s, q, i))], Items(WithoutBook(s, q, i)))
    decreases |q|
  {
    if |q| == 0 {
      WithoutOwnBookItems(s, i);
    } else {
      WithoutBookItems(s.subshelfs[q[0]], q[1..], i);
      WithoutNestedBookItems(s, q, i);
    }
  }

  /** Regrouping a concatenation whose middle part was built on its own. */
  lemma Regroup<T>(head: seq<T>, pre: seq<T>, x: seq<T>, post: seq<T>)
    ensures head + (pre + x + post) == head + pre + x + post
  {
  }

  /** The items of `s` cut around its own book `i`. */
  lemma ItemsAroundBook(s: Shelf, i: nat)
    requires i < |s.books|
    ensures Items(s) == ([ShelfItem(s.name)] + ItemsOf(s.subshelfs) + BookItems(s.books[..i]))
                       + [BookItem(s.books[i])] + BookItems(s.books[i + 1..])
  {
    var head := [ShelfItem(s.name)] + ItemsOf(s.subshelfs);
    BookItemsAround(s.books, i);
    assert Items(s) == head + BookItems(s.books);
    Regroup(head, BookItems(s.books[..i]), [BookItem(s.books[i])], BookItems(s.books[i + 1..]));
  }

  /** The items of `s` with its own book `i` erased. */
  lemma ItemsWithoutBook(s: Shelf, i: nat)
    requires i < |s.books|
    ensures Items(WithoutBook(s, [], i)) == ([ShelfItem(s.name)] + ItemsOf(s.subshelfs) + BookItems(s.books[..i]))
                       + BookItems(s.books[i + 1..])
  {
    var head := [ShelfItem(s.name)] + ItemsOf(s.subshelfs);
    BookItemsAppend(s.books[..i], s.books[i + 1..]);
    assert Items(WithoutBook(s, [], i)) == head + BookItems(s.books[..i] + s.books[i + 1..]);
    Regroup(head, BookItems(s.books[..i]), [], BookItems(s.books[i + 1..]));
  }

  lemma WithoutOwnBookItems(s: Shelf, i: nat)
    requires i < |s.books|
    ensures CutsOut(Items(s), BookOffset(s, [], i), [BookItem(s.books[i])], Items(WithoutBook(s, [], i)))
  {
    var a := [ShelfItem(s.name)] + ItemsOf(s.subshelfs) + BookItems(s.books[..i]);
    ItemsAroundBook(s, i);
    ItemsWithoutBook(s, i);
    CutsOutOf(Items(s), Items(WithoutBook(s, [], i)), a, [BookItem(s.books[i])], BookItems(s.books[i + 1..]));
  }

  lemma WithoutNestedBookItems(s: Shelf, q: seq<nat>, i: nat)
    requires IsBookPath(s, q, i) && |q| > 0
    requires CutsOut(Items(s.subshelfs[q[0]]), BookOffset(s.subshelfs[q[0]], q[1..], i),
                     [BookItem(BookAt(s, q, i))], Items(WithoutBook(s.subshelfs[q[0]], q[1..], i)))
    ensures CutsOut(Items(s), BookOffset(s, q, i), [BookItem(BookAt(s, q, i))], Items(WithoutBook(s, q, i)))
  {
    var k, subs := q[0], s.subshelfs;
    var child := WithoutBook(subs[k], q[1..], i);
    var a := [ShelfItem(s.name)] + ItemsOf(subs[..k]);
    var b := ItemsOf(subs[k + 1..]) + BookItems(s.books);
    ChildShape(s, k, child, a, b);
    CutsOutNested(Items(s), BookOffset(s, q, i), Items(WithoutBook(s, q, i)),
                  a, Items(subs[k]), Items(child), b, BookOffset(subs[k], q[1..], i), [BookItem(BookAt(s, q, i))]);
  }

  /**
   * Erasing shifts the later siblings down one slot, so a second delete
   * through the same address finds the sibling that followed the erased
   * shelf, and finds nothing when the erased shelf was the last one.
   */
  lemma {:induction false} SlotRefilledByNextSibling(s: Shelf, q: seq<nat>)
    requires IsShelfPath(s, q)
    ensures IsShelfPath(WithoutShelf(s, q), q) <==> IsShelfPath(s, NextSibling(q))
    ensures IsShelfPath(s, NextSibling(q)) ==> ShelfAt(WithoutShelf(s, q), q) == ShelfAt(s, NextSibling(q))
    decreases |q|
  {
    var k := q[0];
    if |q| > 1 {
      assert NextSibling(q)[0] == k && NextSibling(q)[1..] == NextSibling(q[1..]);
      SlotRefilledByNextSibling(s.subshelfs[k], q[1..]);
    }
  }

  /** The slot after the last step of `q`. */
  function NextSibling(q: seq<nat>): (r: seq<nat>)
    requires |q| > 0
    ensures |r| == |q| && r[..|q| - 1] == q[..|q| - 1] && r[|q| - 1] == q[|q| - 1] + 1
  {
    q[..|q| - 1] + [q[|q| - 1] + 1]
  }

  // ---------------------------------------------------------------------------
  // Appending, as the library window's Add menu does

  /** `q` leads from `s` to `s` itself (when empty) or to a sub-shelf at some depth. */
  predicate Reaches(s: Shelf, q: seq<nat>)
    decreases |q|
  {
    |q| == 0 || (q[0] < |s.subshelfs| && Reaches(s.subshelfs[q[0]], q[1..]))
  }

  /** The shelf that `q` reaches. */
  function Reached(s: Shelf, q: seq<nat>): Shelf
    requires Reaches(s, q)
    decreases |q|
  {
    if |q| == 0 then s else Reached(s.subshelfs[q[0]], q[1..])
  }

  /** A path to a sub-shelf is exactly a non-empty path that reaches a shelf, and both name the same shelf. */
  lemma {:induction false} ShelfPathReaches(s: Shelf, q: seq<nat>)
    ensures IsShelfPath(s, q) <==> |q| > 0 && Reaches(s, q)
    ensures IsShelfPath(s, q) ==> ShelfAt(s, q) == Reached(s, q)
    decreases |q|
  {
    if |q| > 1 && q[0] < |s.subshelfs| {
      ShelfPathReaches(s.subshelfs[q[0]], q[1..]);
    } else if |q| == 1 && q[0] < |s.subshelfs| {
      assert q[1..] == [];
    }
  }

  /** `subshelfs.emplace_back()` on the shelf that `q` reaches. */
  function WithShelfAppended(s: Shelf, q: seq<nat>): Shelf
    requires Reaches(s, q)
    decreases |q|
  {
    if |q| == 0 then s.(subshelfs := s.subshelfs + [EmptyShelf()])
    else s.(subshelfs := s.subshelfs[q[0] := WithShelfAppended(s.subshelfs[q[0]], q[1..])])
  }

  /** `books.emplace_back()` on the shelf that `q` reaches. */
  function WithBookAppended(s: Shelf, q: seq<nat>): Shelf
    requires Reaches(s, q)
    decreases |q|
  {
    if |q| == 0 then s.(books := s.books + [EmptyBook()])
    else s.(subshelfs := s.subshelfs[q[0] := WithBookAppended(s.subshelfs[q[0]], q[1..])])
  }

  /**
   * An appended shelf is an empty "<unnamed>" shelf in the slot after the last
   * sub-shelf, and deleting that slot gives back the tree as it was.
   */
  lemma {:induction false} AppendShelfThenDelete(s: Shelf, q: seq<nat>)
    requires Reaches(s, q)
    ensures var n := |Reached(s, q).subshelfs|;
      IsShelfPath(WithShelfAppended(s, q), q + [n])
      && ShelfAt(WithShelfAppended(s, q), q + [n]) == EmptyShelf()
      && WithoutShelf(WithShelfAppended(s, q), q + [n]) == s
    decreases |q|
  {
    var n := |Reached(s, q).subshelfs|;
    if |q| == 0 {
      assert [] + [n] == [n];
      assert (s.subshelfs + [EmptyShelf()])[..n] == s.subshelfs;
    } else {
      assert (q + [n])[0] == q[0] && (q + [n])[1..] == q[1..] + [n];
      AppendShelfThenDelete(s.subshelfs[q[0]], q[1..]);
    }
  }

  /**
   * An appended book is an "<untitled>" book with no location in the slot
   * after the shelf's last book, and deleting that slot gives back the tree as it was.
   */
  lemma {:induction false} AppendBookThenDelete(s: Shelf, q: seq<nat>)
    requires Reaches(s, q)
    ensures var n := |Reached(s, q).books|;
      IsBookPath(WithBookAppended(s, q), q, n)
      && BookAt(WithBookAppended(s, q), q, n) == EmptyBook()
      && WithoutBook(WithBookAppended(s, q), q, n) == s
    decreases |q|
  {
    var n := |Reached(s, q).books|;
    if |q| == 0 {
      assert (s.books + [EmptyBook()])[..n] == s.books;
    } else {
      AppendBookThenDelete(s.subshelfs[q[0]], q[1..]);
    }
  }
}
