/** The book records and the pure rules the shelf applies to its list of them:
    first-match lookup, first-match update, first-match removal, and the
    filter and split into two groups that rendering performs. */
module Library {
  import opened Wrappers
  import opened Text

  /** One book record. Ids are creation timestamps in milliseconds, so two
      books may share one; nothing here assumes ids are unique. */
  datatype Book = Book(id: int, title: string, author: string, year: int, isComplete: bool)

  /** No book among the first `n` carries `id`. */
  predicate UnmatchedBefore(books: seq<Book>, id: int, n: int) {
    forall j :: 0 <= j < n && j < |books| ==> books[j].id != id
  }

  /** No book in the list carries `id`. */
  predicate Absent(books: seq<Book>, id: int) {
    UnmatchedBefore(books, id, |books|)
  }

  /** Position `i` holds the first book carrying `id`. */
  predicate FirstMatch(books: seq<Book>, id: int, i: int) {
    0 <= i < |books| && books[i].id == id && UnmatchedBefore(books, id, i)
  }

  /** The position `findBookIndex` reports: the least index carrying `id`, or -1. */
  function IndexOf(books: seq<Book>, id: int): (r: int)
    ensures -1 <= r < |books|
    ensures r == -1 <==> Absent(books, id)
    ensures r != -1 ==> FirstMatch(books, id, r)
  {
    if books == [] then -1
    else if books[0].id == id then 0
    else
      var k := IndexOf(books[1..], id);
      if k == -1 then -1 else k + 1
  }

  /** The book `findBook` returns, written as its own scan of the list. */
  function Lookup(books: seq<Book>, id: int): (r: Option<Book>)
    ensures r.None? <==> Absent(books, id)
    ensures r.Some? ==> r.value in books && r.value.id == id
  {
    if books == [] then None
    else if books[0].id == id then Some(books[0])
    else Lookup(books[1..], id)
  }

  /** The first match is unique: a position holding `id` with none before it is the one `IndexOf` reports. */
  lemma FirstMatchUnique(books: seq<Book>, id: int, i: int)
    requires FirstMatch(books, id, i)
    ensures IndexOf(books, id) == i
  {
  }

  /** `findBook` and `findBookIndex` agree: the book found is the one at the index found. */
  lemma {:induction false} LookupAtIndexOf(books: seq<Book>, id: int)
    ensures Lookup(books, id) == if IndexOf(books, id) == -1 then None else Some(books[IndexOf(books, id)])
  {
    if books != [] && books[0].id != id {
      LookupAtIndexOf(books[1..], id);
    }
  }

  /** The in-place field writes the shelf performs on a found record. */
  datatype Edit =
    | SetComplete(done: bool)                                           // addBookToCompleted / undoBookFromCompleted
    | Overwrite(title: string, author: string, year: int, done: bool)   // updateBook

  function Apply(b: Book, e: Edit): (r: Book)
    ensures r.id == b.id && r.isComplete == e.done
    ensures e.SetComplete? ==> r.title == b.title && r.author == b.author && r.year == b.year
    ensures e.Overwrite? ==> r.title == e.title && r.author == e.author && r.year == e.year
  {
    match e
    case SetComplete(done) => b.(isComplete := done)
    case Overwrite(t, a, y, done) => b.(title := t, author := a, year := y, isComplete := done)
  }

  /** The list after `e` is written into the first book carrying `id`. */
  function UpdateFirst(books: seq<Book>, id: int, e: Edit): (r: seq<Book>)
    ensures |r| == |books|
    ensures forall i :: 0 <= i < |books| ==> r[i].id == books[i].id
    ensures Absent(books, id) ==> r == books
  {
    if books == [] then []
    else if books[0].id == id then [Apply(books[0], e)] + books[1..]
    else [books[0]] + UpdateFirst(books[1..], id, e)
  }

  /** Only the first match changes, and only by `e`; a miss changes nothing. */
  lemma {:induction false} UpdateFirstAt(books: seq<Book>, id: int, e: Edit)
    ensures var i := IndexOf(books, id);
      UpdateFirst(books, id, e) == if i == -1 then books else books[i := Apply(books[i], e)]
  {
    if books != [] {
      var rest := books[1..];
      assert books == [books[0]] + rest;
      if books[0].id == id {
        UpdateHead(books[0], rest, Apply(books[0], e));
      } else {
        UpdateFirstAt(rest, id, e);
        var k := IndexOf(rest, id);
        if k != -1 {
          UpdateTail(books[0], rest, k, Apply(rest[k], e));
        }
      }
    }
  }

  /** Replacing the head of a list. */
  lemma UpdateHead<T>(x: T, s: seq<T>, v: T)
    ensures [v] + s == ([x] + s)[0 := v]
  {
  }

  /** Replacing an element behind a fixed head. */
  lemma UpdateTail<T>(x: T, s: seq<T>, k: int, v: T)
    requires 0 <= k < |s|
    ensures [x] + s[k := v] == ([x] + s)[k + 1 := v]
  {
  }

  /** Writing the same fields twice is writing them once. */
  lemma {:induction false} UpdateFirstIdempotent(books: seq<Book>, id: int, e: Edit)
    ensures UpdateFirst(UpdateFirst(books, id, e), id, e) == UpdateFirst(books, id, e)
  {
    if books != [] && books[0].id != id {
      UpdateFirstIdempotent(books[1..], id, e);
    }
  }

  /** The list after the first book carrying `id` is spliced out. */
  function RemoveFirst(books: seq<Book>, id: int): (r: seq<Book>)
    ensures |r| == if Absent(books, id) then |books| else |books| - 1
    ensures Absent(books, id) ==> r == books
  {
    if books == [] then []
    else if books[0].id == id then books[1..]
    else [books[0]] + RemoveFirst(books[1..], id)
  }

  /** Removal deletes exactly the element at the first match and keeps the others in order. */
  lemma {:induction false} RemoveFirstAt(books: seq<Book>, id: int)
    ensures var i := IndexOf(books, id);
      RemoveFirst(books, id) == if i == -1 then books else books[..i] + books[i + 1..]
  {
    if books != [] {
      var rest := books[1..];
      assert books == [books[0]] + rest;
      if books[0].id != id {
        RemoveFirstAt(rest, id);
        var k := IndexOf(rest, id);
        if k != -1 {
          SpliceTail(books[0], rest, k);
        }
      }
    }
  }

  /** Splicing an element out behind a fixed head. */
  lemma SpliceTail<T>(x: T, s: seq<T>, k: int)
    requires 0 <= k < |s|
    ensures [x] + (s[..k] + s[k + 1..]) == ([x] + s)[..k + 1] + ([x] + s)[k + 2..]
  {
  }

  /** What was removed is one copy of the first match, so the list loses exactly that book. */
  lemma RemoveFirstMultiset(books: seq<Book>, id: int)
    requires !Absent(books, id)
    ensures multiset(RemoveFirst(books, id)) + multiset{books[IndexOf(books, id)]} == multiset(books)
  {
    RemoveFirstAt(books, id);
    SpliceMultiset(books, IndexOf(books, id));
  }

  /** Splicing one book out of the list loses exactly that book. */
  lemma SpliceMultiset(books: seq<Book>, i: int)
    requires 0 <= i < |books|
    ensures multiset(books[..i] + books[i + 1..]) + multiset{books[i]} == multiset(books)
  {
    assert books == books[..i] + [books[i]] + books[i + 1..];
  }

  /** The books of `s` that `keep` accepts, in their order in `s`. */
  function Filter<T>(s: seq<T>, keep: T -> bool): (r: seq<T>)
    ensures |r| <= |s|
    ensures forall i :: 0 <= i < |r| ==> keep(r[i])
  {
    if s == [] then [] else (if keep(s[0]) then [s[0]] else []) + Filter(s[1..], keep)
  }

  /** An element survives the filter exactly when it is in the list and accepted. */
  lemma {:induction false} FilterMembers<T>(s: seq<T>, keep: T -> bool, x: T)
    ensures x in Filter(s, keep) <==> x in s && keep(x)
  {
    if s != [] {
      FilterMembers(s[1..], keep, x);
      assert s == [s[0]] + s[1..];
    }
  }

  /** Filtering keeps order: the filter of two lists joined is the two filters joined. */
  lemma {:induction false} FilterAppend<T>(xs: seq<T>, ys: seq<T>, keep: T -> bool)
    ensures Filter(xs + ys, keep) == Filter(xs, keep) + Filter(ys, keep)
  {
    if xs == [] {
      assert xs + ys == ys;
    } else {
      var head := if keep(xs[0]) then [xs[0]] else [];
      calc {
        Filter(xs + ys, keep);
        { assert (xs + ys)[0] == xs[0]; assert (xs + ys)[1..] == xs[1..] + ys; }
        head + Filter(xs[1..] + ys, keep);
        { FilterAppend(xs[1..], ys, keep); }
        head + (Filter(xs[1..], keep) + Filter(ys, keep));
        (head + Filter(xs[1..], keep)) + Filter(ys, keep);
      }
    }
  }

  /** Filters that accept everything `keep` accepts, split by `pick`, share out
      exactly what `keep` accepts. */
  lemma {:induction false} FilterSplit<T>(s: seq<T>, keep: T -> bool, yes: T -> bool, no: T -> bool, pick: T -> bool)
    requires forall x :: yes(x) == (keep(x) && pick(x))
    requires forall x :: no(x) == (keep(x) && !pick(x))
    ensures multiset(Filter(s, yes)) + multiset(Filter(s, no)) == multiset(Filter(s, keep))
  {
    if s != [] {
      FilterSplit(s[1..], keep, yes, no, pick);
    }
  }

  /** A filter that accepts every element leaves the list as it is. */
  lemma {:induction false} FilterAll<T>(s: seq<T>, keep: T -> bool)
    requires forall x :: keep(x)
    ensures Filter(s, keep) == s
  {
    if s != [] {
      FilterAll(s[1..], keep);
      assert s == [s[0]] + s[1..];
    }
  }

  /** The render filter: a book is shown when there is no search, when the
      search is empty, or when its lower-cased title contains the (already
      lower-cased) search string. */
  function Shown(b: Book, search: Option<string>): (r: bool)
    ensures r <==> search.None? || search.value == "" || exists k :: OccursAt(Lower(b.title), search.value, k)
  {
    !(search.Some? && search.value != "" && !Includes(Lower(b.title), search.value))
  }

  function ShownBy(search: Option<string>): Book -> bool {
    b => Shown(b, search)
  }

  function InGroup(search: Option<string>, done: bool): Book -> bool {
    b => Shown(b, search) && b.isComplete == done
  }

  /** The books rendering shows, in list order. */
  function Visible(books: seq<Book>, search: Option<string>): (r: seq<Book>)
    ensures |r| <= |books|
    ensures forall i :: 0 <= i < |r| ==> Shown(r[i], search)
  {
    Filter(books, ShownBy(search))
  }

  /** The books rendering puts into the group for completion status `done`, in list order. */
  function Group(books: seq<Book>, search: Option<string>, done: bool): (r: seq<Book>)
    ensures |r| <= |books|
    ensures forall i :: 0 <= i < |r| ==> Shown(r[i], search) && r[i].isComplete == done
  {
    Filter(books, InGroup(search, done))
  }

  /** A book is in a group exactly when it is in the list, is shown, and has that group's status. */
  lemma GroupMembers(books: seq<Book>, search: Option<string>, done: bool, b: Book)
    ensures b in Group(books, search, done) <==> b in books && Shown(b, search) && b.isComplete == done
  {
    FilterMembers(books, InGroup(search, done), b);
  }

  /** Without a search, or with an empty one, every book is shown, in list order. */
  lemma VisibleUnfiltered(books: seq<Book>, search: Option<string>)
    requires search.None? || search.value == ""
    ensures Visible(books, search) == books
  {
    FilterAll(books, ShownBy(search));
  }

  /** Every shown book lands in exactly one of the two groups. */
  lemma GroupsPartition(books: seq<Book>, search: Option<string>)
    ensures multiset(Group(books, search, true)) + multiset(Group(books, search, false)) == multiset(Visible(books, search))
  {
    FilterSplit(books, ShownBy(search), InGroup(search, true), InGroup(search, false), (b: Book) => b.isComplete);
  }
}
