/** The bookshelf application state: the module-level `books` array, the
    edit-mode flags `isEditing` / `editedBookId`, and the one storage slot
    the list is saved to. Every handler is a method; values the script reads
    from the form, the search box or the clock are parameters. */
module Bookshelf {
  import opened Wrappers
  import opened Text
  import opened Library

  class Shelf {
    var books: seq<Book>
    var isEditing: bool
    var editedBookId: Option<int>
    /** The storage slot under the key BOOKSHELF_APPS; `None` while nothing was ever saved. */
    var stored: Option<seq<Book>>

    /** The edit flag and the edited id are set and cleared together. */
    ghost predicate Valid()
      reads this
    {
      isEditing <==> editedBookId.Some?
    }

    /** Page load, before storage is read: an empty list in add mode, beside
        whatever an earlier session saved. */
    constructor (saved: Option<seq<Book>>)
      ensures Valid()
      ensures books == [] && !isEditing && editedBookId == None && stored == saved
    {
      books := [];
      isEditing := false;
      editedBookId := None;
      stored := saved;
    }

    /** `findBook`: the first book carrying `id`, or none. */
    method FindBook(id: int) returns (r: Option<Book>)
      ensures r.None? <==> Absent(books, id)
      ensures r.Some? ==> r.value == books[IndexOf(books, id)]
      ensures r == Lookup(books, id)
    {
      for i := 0 to |books|
        invariant UnmatchedBefore(books, id, i)
      {
        if books[i].id == id {
          FirstMatchUnique(books, id, i);
          LookupAtIndexOf(books, id);
          return Some(books[i]);
        }
      }
      LookupAtIndexOf(books, id);
      return None;
    }

    /** `findBookIndex`: the least index carrying `id`, or -1. */
    method FindBookIndex(id: int) returns (i: int)
      ensures i == -1 <==> Absent(books, id)
      ensures i != -1 ==> FirstMatch(books, id, i)
      ensures i == IndexOf(books, id)
    {
      for k := 0 to |books|
        invariant UnmatchedBefore(books, id, k)
      {
        if books[k].id == id {
          FirstMatchUnique(books, id, k);
          return k;
        }
      }
      return -1;
    }

    /** `saveData`: overwrite the slot with the whole list. */
    method SaveData()
      modifies this
      ensures stored == Some(books)
      ensures books == old(books) && isEditing == old(isEditing) && editedBookId == old(editedBookId)
    {
      stored := Some(books);
    }

    /** `loadDataFromStorage`: append every saved record after the books already present. */
    method LoadDataFromStorage()
      requires Valid()
      modifies this
      ensures Valid()
      ensures books == old(books) + (if old(stored).Some? then old(stored).value else [])
      ensures stored == old(stored) && isEditing == old(isEditing) && editedBookId == old(editedBookId)
    {
      if stored.Some? {
        var data := stored.value;
        for k := 0 to |data|
          invariant books == old(books) + data[..k]
          invariant stored == old(stored) && isEditing == old(isEditing) && editedBookId == old(editedBookId)
        {
          books := books + [data[k]];
        }
        assert data[..|data|] == data;
      }
    }

    /** `addBook` with `generateBookObject`: append a new record and save. */
    method AddBook(now: int, title: string, author: string, year: int, isComplete: bool)
      requires Valid()
      modifies this
      ensures Valid()
      ensures books == old(books) + [Book(now, title, author, year, isComplete)]
      ensures stored == Some(books)
      ensures isEditing == old(isEditing) && editedBookId == old(editedBookId)
    {
      books := books + [Book(now, title, author, year, isComplete)];
      SaveData();
    }

    /** Finds the first book carrying `id` and, if there is one, writes `e` into it and saves. */
    method Revise(id: int, e: Edit) returns (found: bool)
      requires Valid()
      modifies this
      ensures Valid()
      ensures found <==> !Absent(old(books), id)
      ensures books == UpdateFirst(old(books), id, e)
      ensures stored == if found then Some(books) else old(stored)
      ensures isEditing == old(isEditing) && editedBookId == old(editedBookId)
    {
      UpdateFirstAt(books, id, e);
      var i := FindBookIndex(id);
      found := i != -1;
      if !found {
        return;
      }
      books := books[i := Apply(books[i], e)];
      SaveData();
    }

    /** `addBookToCompleted`: mark the first book carrying `id` as read. */
    method AddBookToCompleted(id: int)
      requires Valid()
      modifies this
      ensures Valid()
      ensures books == UpdateFirst(old(books), id, SetComplete(true))
      ensures stored == if Absent(old(books), id) then old(stored) else Some(books)
      ensures isEditing == old(isEditing) && editedBookId == old(editedBookId)
    {
      var _ := Revise(id, SetComplete(true));
    }

    /** `undoBookFromCompleted`: mark the first book carrying `id` as unread. */
    method UndoBookFromCompleted(id: int)
      requires Valid()
      modifies this
      ensures Valid()
      ensures books == UpdateFirst(old(books), id, SetComplete(false))
      ensures stored == if Absent(old(books), id) then old(stored) else Some(books)
      ensures isEditing == old(isEditing) && editedBookId == old(editedBookId)
    {
      var _ := Revise(id, SetComplete(false));
    }

    /** `removeBook`: splice out the first book carrying `id`, if any, and save. */
    method RemoveBook(id: int)
      requires Valid()
      modifies this
      ensures Valid()
      ensures books == RemoveFirst(old(books), id)
      ensures stored == if Absent(old(books), id) then old(stored) else Some(books)
      ensures isEditing == old(isEditing) && editedBookId == old(editedBookId)
    {
      RemoveFirstAt(books, id);
      var i := FindBookIndex(id);
      if i == -1 {
        return;
      }
      books := books[..i] + books[i + 1..];
      SaveData();
    }

    /** `enableEditMode`: when a book carries `id`, switch to edit mode aimed at
        `id`, replacing any earlier target; otherwise do nothing. */
    method EnableEditMode(id: int)
      requires Valid()
      modifies this
      ensures Valid()
      ensures books == old(books) && stored == old(stored)
      ensures !Absent(books, id) ==> isEditing && editedBookId == Some(id)
      ensures Absent(books, id) ==> isEditing == old(isEditing) && editedBookId == old(editedBookId)
    {
      var target := FindBook(id);
      if target == None {
        return;
      }
      isEditing := true;
      editedBookId := Some(id);
    }

    /** `updateBook`: overwrite the edited book's fields with the form's values
        and return to add mode. When there is no edited id, or no book carries
        it any more, nothing changes and edit mode stays as it was. */
    method UpdateBook(title: string, author: string, year: int, isComplete: bool)
      requires Valid()
      modifies this
      ensures Valid()
      ensures old(editedBookId).None? || Absent(old(books), old(editedBookId).value) ==>
        books == old(books) && stored == old(stored) && isEditing == old(isEditing) && editedBookId == old(editedBookId)
      ensures old(editedBookId).Some? && !Absent(old(books), old(editedBookId).value) ==>
        books == UpdateFirst(old(books), old(editedBookId).value, Overwrite(title, author, year, isComplete)) &&
        stored == Some(books) && !isEditing && editedBookId == None
    {
      if editedBookId.None? {
        return;
      }
      var found := Revise(editedBookId.value, Overwrite(title, author, year, isComplete));
      if !found {
        return;
      }
      isEditing := false;
      editedBookId := None;
    }

    /** The book form's submit handler: update in edit mode, add otherwise. */
    method Submit(now: int, title: string, author: string, year: int, isComplete: bool)
      requires Valid()
      modifies this
      ensures Valid()
      ensures old(isEditing) ==> |books| == |old(books)|
      ensures old(isEditing) && !Absent(old(books), old(editedBookId).value) ==>
        books == UpdateFirst(old(books), old(editedBookId).value, Overwrite(title, author, year, isComplete)) &&
        stored == Some(books) && !isEditing && editedBookId == None
      ensures old(isEditing) && Absent(old(books), old(editedBookId).value) ==>
        books == old(books) && stored == old(stored) && isEditing && editedBookId == old(editedBookId)
      ensures !old(isEditing) ==>
        books == old(books) + [Book(now, title, author, year, isComplete)] &&
        stored == Some(books) && !isEditing && editedBookId == None
    {
      if isEditing {
        UpdateBook(title, author, year, isComplete);
      } else {
        AddBook(now, title, author, year, isComplete);
      }
    }

    /** The render listener's selection: walk the list in order, skip books the
        search excludes, and send each remaining book to the unread group or
        the read group by its completion flag. */
    method Render(search: Option<string>) returns (incomplete: seq<Book>, complete: seq<Book>)
      ensures incomplete == Group(books, search, false)
      ensures complete == Group(books, search, true)
      ensures forall b :: b in incomplete <==> b in books && Shown(b, search) && !b.isComplete
      ensures forall b :: b in complete <==> b in books && Shown(b, search) && b.isComplete
    {
      incomplete, complete := [], [];
      for k := 0 to |books|
        invariant incomplete == Group(books[..k], search, false)
        invariant complete == Group(books[..k], search, true)
      {
        var b := books[k];
        assert books[..k + 1] == books[..k] + [b];
        FilterAppend(books[..k], [b], InGroup(search, false));
        FilterAppend(books[..k], [b], InGroup(search, true));
        if !Shown(b, search) {
          continue;
        }
        if !b.isComplete {
          incomplete := incomplete + [b];
        } else {
          complete := complete + [b];
        }
      }
      assert books[..|books|] == books;
      forall b | b in books || b in incomplete || b in complete
        ensures b in incomplete <==> b in books && Shown(b, search) && !b.isComplete
        ensures b in complete <==> b in books && Shown(b, search) && b.isComplete
      {
        GroupMembers(books, search, false, b);
        GroupMembers(books, search, true, b);
      }
    }

    /** The search form's handler: lower-case the query and render with it.
        The match is case-insensitive on both sides. */
    method Search(query: string) returns (incomplete: seq<Book>, complete: seq<Book>)
      ensures incomplete == Group(books, Some(Lower(query)), false)
      ensures complete == Group(books, Some(Lower(query)), true)
      ensures forall b :: b in incomplete <==>
        b in books && !b.isComplete && (query == "" || Includes(Lower(b.title), Lower(query)))
      ensures forall b :: b in complete <==>
        b in books && b.isComplete && (query == "" || Includes(Lower(b.title), Lower(query)))
    {
      incomplete, complete := Render(Some(Lower(query)));
    }
  }
}
