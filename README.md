# Bookshelf store — a Dafny model

This project models the in-memory core of a browser bookshelf application
(`main.js`): the list of book records `{id, title, author, year, isComplete}`,
the linear lookups `findBook` / `findBookIndex`, the handlers that add, mark
read, mark unread, remove and edit books, the two-variable edit mode
(`isEditing`, `editedBookId`) that decides whether the book form adds or
updates, the render listener's search filter and its split into an unread and
a read group, and the save/load of the list to its one storage slot.

Layout:

- `wrappers.dfy` — `Option`, standing for the script's `null`.
- `text.dfy` — `Lower` (`toLowerCase`, ASCII letters only) and `Includes`
  (`String.prototype.includes`), proved against the plain definition of a
  substring occurrence.
- `library.dfy` — the `Book` datatype and the pure rules over a list of books:
  first-match index and lookup, first-match update and removal, and the render
  selection (`Visible`, `Group`, both written with one order-keeping `Filter`),
  with the lemmas that relate them.
- `shelf.dfy` — `class Shelf`: the module-level state as fields, every handler
  as a method whose postcondition gives the whole new state in terms of the
  old one through the functions of `library.dfy`; `Valid()` is the invariant
  that the edit flag and the edited id are set and cleared together.
- `scenarios.dfy` — a case-insensitive search match and a walk through add,
  mark read, edit and delete, checked through the method contracts and the
  lemmas about the functions they are stated with.

Ids are millisecond timestamps (`main.js:14-16`), so two books can share one.
Nothing in the model assumes ids are unique: every lookup, update and removal
is stated for the *first* book carrying the id.

Where the application's documentation and its code differ, the model
follows the code:

- Loading appends the stored records after whatever is already in the list
  (`main.js:74-77`); it does not start from an empty list.
- Ids are not guaranteed unique, so "find" means "find the first".
- The storage-capability check at `main.js:52-58` compares the *string*
  returned by `typeof` with the value `undefined`, which is never equal, so it
  never reports storage as missing; the model has no storage-missing path.

## Model

| member | source | states |
|---|---|---|
| `Text.Lower` | main.js:297 | lower-casing keeps the length, turns each upper-case ASCII letter into its lower-case letter, and keeps every other character |
| `Text.Includes` | main.js:297 | the result is true exactly when the query occurs as a contiguous piece of the title at some position |
| `Library.IndexOf` | main.js:40-47 | the result is -1 exactly when no book carries the id; otherwise it is a position holding the id with no earlier position holding it |
| `Library.Lookup` | main.js:30-37 | the result is none exactly when no book carries the id; otherwise it is a book of the list carrying the id |
| `Library.FirstMatchUnique` | main.js:40-47 | a position that holds the id with no earlier one holding it is the position the index lookup reports |
| `Library.LookupAtIndexOf` | main.js:30-47 | `findBook` and `findBookIndex` agree: the book found is the book at the index found, and both miss together |
| `Library.Apply` | main.js:226-234 | writing into a record never changes its id; marking read or unread keeps title, author and year; an edit sets title, author, year and status to the form's values |
| `Library.UpdateFirst` | main.js:171-188 | an in-place update keeps the list length and every book's id, and leaves the list unchanged when no book carries the id |
| `Library.UpdateFirstAt` | main.js:171-188 | the update changes only the first book carrying the id, by exactly the written fields; every other position is unchanged; a miss is a no-op |
| `Library.UpdateFirstIdempotent` | main.js:171-178 | marking the same id read (or unread, or applying the same edit) twice gives the same list as doing it once |
| `Library.RemoveFirst` | main.js:191-195 | removal shortens the list by one when a book carries the id and leaves the list unchanged when none does |
| `Library.RemoveFirstAt` | main.js:191-195 | removal deletes exactly the element at the first match and keeps the books before and after it in their order |
| `Library.RemoveFirstMultiset` | main.js:191-195 | the books left plus the first matching book are exactly the books there were |
| `Library.SpliceMultiset` | main.js:195 | splicing one element out of a list loses exactly that element |
| `Library.Shown` | main.js:297 | a book is shown exactly when there is no search, the search is empty, or the search occurs somewhere in the lower-cased title |
| `Library.Visible` | main.js:295-299 | the shown books are no more than the listed books and every one of them passes the search test |
| `Library.Group` | main.js:295-308 | the books of a group are no more than the listed books, each passes the search test and each has the group's status |
| `Library.Filter` | main.js:295-299 | the books kept are all accepted by the test and are no more than the books walked |
| `Library.FilterMembers` | main.js:295-299 | a book is kept exactly when it is in the list and accepted by the test |
| `Library.FilterAppend` | main.js:295-308 | the walk keeps list order: filtering two lists joined gives the two filtered lists joined |
| `Library.FilterSplit` | main.js:303-307 | splitting the accepted books by a yes/no test shares them out between the two parts with nothing lost or doubled |
| `Library.FilterAll` | main.js:297 | a test that accepts every book keeps the whole list unchanged |
| `Library.GroupMembers` | main.js:295-308 | a book is in the group for a status exactly when it is in the list, passes the search filter, and has that status |
| `Library.VisibleUnfiltered` | main.js:293-299 | with no search or an empty search, every book is shown, in list order |
| `Library.GroupsPartition` | main.js:303-307 | the read group and the unread group together hold every shown book exactly as often as it is shown |
| `Bookshelf.Shelf.constructor` | main.js:2-9 | the page starts with an empty list, not editing, no edited id, and whatever an earlier session saved |
| `Bookshelf.Shelf.FindBook` | main.js:30-37 | returns none exactly when no book carries the id, otherwise the book at the least index carrying it |
| `Bookshelf.Shelf.FindBookIndex` | main.js:40-47 | returns -1 exactly when no book carries the id, otherwise the least index carrying it |
| `Bookshelf.Shelf.SaveData` | main.js:61-67 | the storage slot afterwards holds the whole current list; nothing else changes |
| `Bookshelf.Shelf.LoadDataFromStorage` | main.js:70-80 | the stored records are appended after the books already present, in stored order; with nothing stored the list is unchanged |
| `Bookshelf.Shelf.AddBook` | main.js:156-168 | the list grows by one, the new book is last with the given id, title, author, year and status, earlier books are unchanged, and the list is saved |
| `Bookshelf.Shelf.Revise` | main.js:172-234 | the find-then-write step shared by marking read, marking unread and saving an edit: a hit writes the fields into the first match only and saves; a miss changes nothing, the storage slot included |
| `Bookshelf.Shelf.AddBookToCompleted` | main.js:171-178 | the first book carrying the id becomes read and nothing else changes; a miss is a no-op and does not save |
| `Bookshelf.Shelf.UndoBookFromCompleted` | main.js:181-188 | the first book carrying the id becomes unread and nothing else changes; a miss is a no-op and does not save |
| `Bookshelf.Shelf.RemoveBook` | main.js:191-198 | the first book carrying the id is spliced out and the list saved; a miss leaves list and storage unchanged; edit mode is untouched |
| `Bookshelf.Shelf.EnableEditMode` | main.js:203-215 | on a present id the shelf is editing that id, replacing any earlier target; on a missing id the edit state is untouched; the list never changes |
| `Bookshelf.Shelf.UpdateBook` | main.js:226-238 | when the edited id is still present, its first book gets the form's fields, keeps id and position, the list is saved and edit mode ends; otherwise nothing changes and edit mode stays on |
| `Bookshelf.Shelf.Submit` | main.js:254-261 | in edit mode the submit updates (saving and leaving edit mode on a hit, changing nothing on a miss) and never changes the list length; otherwise it appends the new book, saves, and stays in add mode |
| `Bookshelf.Shelf.Render` | main.js:284-309 | the unread group and the read group are the shown books with that status, in list order |
| `Bookshelf.Shelf.Search` | main.js:268-275 | the two groups are the render groups for the lower-cased query, so list order and repeated books are kept; a book appears in a group exactly when it has that status and its title contains the query, both compared lower-cased, or the query is empty |
| `Scenarios.SearchMatchesAcrossCase` | main.js:270 | the query "TIME" matches the title "A Brief History of Time" |

## Left out

- The DOM: building book cards (`makeBookElement`), button labels, the submit
  button text, scrolling, the delete confirmation prompt, resetting the form
  after submit, and copying the book's fields into the form in
  `enableEditMode` (`main.js:208-211`). Form values reach the model as
  method parameters instead.
- The clock: `generateId` reads the current time; `AddBook` and `Submit` take
  that value as the parameter `now`.
- `parseInt`: the year is passed already parsed as an integer; a
  non-numeric year (NaN) is not modelled, nor is its loss in JSON, which
  writes NaN as `null`.
- JSON serialisation: the storage slot holds the list itself, so the
  save/load round trip is exact by construction.
- `isStorageExist` and its alert: storage is always available in the model.
- The event bus: render and save notifications and the `console.log` of the
  saved data. `Render` is the selection the render listener performs, called
  directly; the re-render that follows each mutation is not tied to it.
- `findBookIndex` iterates with `for…in` and so returns the index as a
  string, which `splice` converts back; the model uses an integer index.
- `findBook` returns a reference to the record, and the handlers write its
  fields through that reference. The model replaces the element at the first
  matching position instead; every record object occurs once in the list, so
  no aliasing is lost.
- Text.Lower: folds ASCII letters only; JavaScript's `toLowerCase` also folds
  non-ASCII letters, which the model leaves unchanged.
