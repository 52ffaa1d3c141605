/** Walk-throughs of the shelf's documented behaviour, checked against the
    method contracts alone. */
module Scenarios {
  import opened Wrappers
  import opened Text
  import opened Library
  import opened Bookshelf

  /** A lower-case query finds a title that spells it with a capital letter. */
  lemma SearchMatchesAcrossCase()
    ensures Includes(Lower("A Brief History of Time"), Lower("TIME"))
  {
    var title := Lower("A Brief History of Time");
    assert title[19..23] == "time";
    assert Lower("TIME") == "time";
    assert OccursAt(title, Lower("TIME"), 19);
  }

  /** Adding "Dune" unread puts it in the unread group only. */
  method DuneAdded(now: int)
  {
    var shelf := new Shelf(None);
    shelf.AddBook(now, "Dune", "Herbert", 1965, false);
    var dune := Book(now, "Dune", "Herbert", 1965, false);
    assert shelf.books == [dune];
    var unread, read := shelf.Render(None);
    assert dune in unread && dune !in read;
  }

  /** Marking the only copy of a book read moves it from the unread group to
      the read group, with its id, title, author and year kept. */
  method DuneCompleted(shelf: Shelf, dune: Book)
    requires shelf.Valid() && shelf.books == [dune] && !dune.isComplete
    modifies shelf
  {
    shelf.AddBookToCompleted(dune.id);
    UpdateFirstAt([dune], dune.id, SetComplete(true));
    var done := dune.(isComplete := true);
    assert shelf.books == [done];
    var unread, read := shelf.Render(None);
    assert done in read && done !in unread && dune !in unread;
  }

  /** Editing the title keeps the id and position and returns the form to add mode. */
  method DuneRetitled(shelf: Shelf, dune: Book)
    requires shelf.Valid() && shelf.books == [dune]
    modifies shelf
  {
    shelf.EnableEditMode(dune.id);
    assert shelf.isEditing && shelf.editedBookId == Some(dune.id);
    shelf.Submit(dune.id + 1, "Dune Messiah", dune.author, dune.year, dune.isComplete);
    UpdateFirstAt([dune], dune.id, Overwrite("Dune Messiah", dune.author, dune.year, dune.isComplete));
    assert shelf.books == [dune.(title := "Dune Messiah")];
    assert !shelf.isEditing && shelf.editedBookId == None;
  }

  /** Deleting an absent id changes nothing; deleting the present one empties the list. */
  method DuneRemoved(shelf: Shelf, dune: Book)
    requires shelf.Valid() && shelf.books == [dune]
    modifies shelf
  {
    shelf.RemoveBook(dune.id + 1);
    assert shelf.books == [dune];
    shelf.RemoveBook(dune.id);
    assert shelf.books == [];
  }
}
