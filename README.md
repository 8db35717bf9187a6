# Library management: a verified model of `LibrarySystem`

`LibraryManagement.java` is a console library system. Its whole state is four static
fields of `LibrarySystem`:
- a list of `Book` objects (id, title, author, borrowed flag);
- a list of `Member` objects (id, name, list of borrowed book ids);
- the two id counters `bookCounter` and `memberCounter`, which both start at 1.

The menu adds books and members, lends and returns books, searches by keyword, and saves
or loads the four fields.

The model has four modules:

- `LibraryManagement` (`library.dfy`) holds the source's classes.
  - `Book` and `Member` are classes with the source's fields.
  - `LibrarySystem` holds the four fields as `seq<Book>`, `seq<Member>` and two `int`s.
  - Its methods change those fields in place, with every assignment the source makes.
    `AddBook` and `AddMember` advance the counter before the append, as `counter++` inside
    the `add` call does. `GetBookById`,
    `GetMemberById` and `SearchBooks` are loops that scan the list.
  - Each method's contract says that its value view, `Snapshot()`, becomes the matching
    state function applied to the old view.
- `LibraryState` (`state.dfy`) is the same library as plain values.
  - `AddBook`, `AddMember`, `Borrow`, `Return` and `Search` are functions from the old
    state to the new one. `Borrow` and `Return` also give an `Outcome` where the source
    prints a message.
  - The lemmas prove what the system promises:
    - failing guards change nothing;
    - ids are sequential and unique;
    - the borrowed flag agrees with the members' lists (`Invariant`), and menu choices 1
      to 4 (adding a book or a member, borrowing, returning) keep that invariant. Loading
      installs whatever the file holds, so `LoadData` promises nothing about it;
    - borrowing and then returning a book restores the library;
    - search finds exactly the matching books, in order, ignoring case.
- `Lists` (`lists.dfy`) models the first-match scan behind the `getBookById` and
  `getMemberById` loops and behind `List.remove(Object)`. It also models the two `List<Integer>`
  operations applied to a member's borrowed ids: `contains` (Dafny's `in`) and
  `remove(Object)`.
- `Text` (`text.dfy`) models `String.toLowerCase` (ASCII letters only) and
  `String.contains`.

The Scanner prompts become parameters. The printed messages become the `Outcome` values
`Success`, `MemberNotFound`, `BookNotFound`, `AlreadyBorrowed` and `NotBorrowedByMember`.

`returnBook` has a branch that a stricter design would answer with `BookNotFound`: a
member lists an id that names no book. The code
(`LibraryManagement.java:128-129`) dereferences the null result of `getBookById` there, and
the program ends with a `NullPointerException`. The model follows the code: it reports
`NullPointer` and leaves the state as it was, because the exception is thrown before
anything changes. `ReturnNeverFaults` proves that this branch cannot happen while
`Invariant` holds.

## Model

| member | source | states |
|---|---|---|
| LibraryManagement.Book.constructor | LibraryManagement.java:11-16 | a new book has the given id, title and author and is not borrowed |
| LibraryManagement.Member.constructor | LibraryManagement.java:33-37 | a new member has the given id and name and an empty borrowed list |
| LibraryManagement.LibrarySystem.constructor | LibraryManagement.java:50-53 | the library starts with no books, no members and both counters at 1 |
| LibraryManagement.LibrarySystem.GetBookById | LibraryManagement.java:199-202 | the result is null exactly when no book has the id; otherwise it is the book at the first position with that id |
| LibraryManagement.LibrarySystem.GetMemberById | LibraryManagement.java:204-207 | the result is null exactly when no member has the id; otherwise it is the member at the first position with that id |
| LibraryManagement.LibrarySystem.AddBook | LibraryManagement.java:56-66 | exactly one fresh book object is appended, with id = the old bookCounter, the given title and author, and not borrowed; bookCounter grows by one; the members and memberCounter are unchanged |
| LibraryManagement.LibrarySystem.AddMember | LibraryManagement.java:69-76 | exactly one fresh member object is appended, with id = the old memberCounter and an empty list; memberCounter grows by one; the books and bookCounter are unchanged |
| LibraryManagement.LibrarySystem.Lend | LibraryManagement.java:103-104 | only the chosen book becomes borrowed, and its id is appended only to the chosen member's list |
| LibraryManagement.LibrarySystem.Release | LibraryManagement.java:129-130 | only the chosen book becomes available, and only the chosen member loses the first occurrence of its id |
| LibraryManagement.LibrarySystem.BorrowBook | LibraryManagement.java:79-107 | the new state and the outcome are those of `Borrow` on the old state, and object distinctness is kept |
| LibraryManagement.LibrarySystem.BorrowFound | LibraryManagement.java:89-104 | once the member is found: the book lookup and the borrowed check, then the lending, give the state and outcome of `Borrow` |
| LibraryManagement.LibrarySystem.ReturnBook | LibraryManagement.java:110-133 | the new state and the outcome are those of `Return` on the old state, and object distinctness is kept |
| LibraryManagement.LibrarySystem.ReturnListed | LibraryManagement.java:128-130 | once the member is found and lists the id: the book lookup and the release give the state and outcome of `Return`, with `NullPointer` when no book has the id |
| LibraryManagement.LibrarySystem.SearchBooks | LibraryManagement.java:136-148 | the loop collects exactly `Search` of the books, i.e. the matching books in list order |
| LibraryManagement.LibrarySystem.SaveData | LibraryManagement.java:167-180 | the snapshot holds the books' records, the members' records, bookCounter and memberCounter, in the order they are written |
| LibraryManagement.LibrarySystem.LoadData | LibraryManagement.java:183-196 | a readable snapshot replaces all four fields, rebuilt as distinct objects that are all freshly allocated; an unreadable one changes nothing |
| LibraryManagement.SaveThenLoad | LibraryManagement.java:212-241 | saving on exit and then loading on the next start gives back the same books, members and counters |
| LibraryManagement.NewBooks | LibraryManagement.java:186 | loading builds one new, distinct book object per saved record, with that record's contents |
| LibraryManagement.NewMembers | LibraryManagement.java:187 | loading builds one new, distinct member object per saved record, with that record's contents |
| LibraryManagement.DuneSetup | LibraryManagement.java:50-74 | a new system after adding "Dune" by Herbert and member "Alice" holds exactly those two, both with id 1, as fresh objects |
| LibraryManagement.DuneScenario | LibraryManagement.java:50-133 | after the two additions, borrowing and returning Dune twice over leaves the system as it was after the additions |
| LibraryManagement.DuneBorrowTwice | LibraryManagement.java:79-107 | in the Dune/Alice session the first borrow of book 1 by member 1 succeeds, with book 1 borrowed and Alice's list [1]; the second returns AlreadyBorrowed and changes nothing |
| LibraryManagement.DuneReturnTwice | LibraryManagement.java:110-133 | the first return succeeds and shelves Dune again; the second reports NotBorrowedByMember; a borrow by unknown member 99 reports MemberNotFound |
| Lists.IndexOf | LibraryManagement.java:199-207 | the result is None exactly when x is absent; otherwise x is at that position and at no earlier one |
| Lists.IndexOfFirst | LibraryManagement.java:200 | a position holding the first occurrence of x is the position the lookup reports |
| Lists.RemoveFirst | LibraryManagement.java:130 | remove(Object) leaves the list unchanged when x is absent; otherwise it deletes x at its first position, keeps the elements before and after that position in their order, and shortens the list by one |
| Lists.PrefixExtend | LibraryManagement.java:142 | a prefix one element longer is the shorter prefix followed by that element, which is the search loop's step over the list |
| Lists.RemoveFirstMultiset | LibraryManagement.java:130 | remove(Object) takes away exactly one copy of x and no other element |
| Lists.RemoveFirstOfAppended | LibraryManagement.java:104 | removing an id from a list just extended by it, where it was absent before, gives the old list back |
| Lists.RemoveFirstNoDuplicates | LibraryManagement.java:130 | on a list without duplicates, remove(x) leaves no x, keeps every other element, and keeps the list free of duplicates |
| Lists.AppendNoDuplicates | LibraryManagement.java:104 | appending an absent id keeps a list free of duplicates |
| Text.LowerChar | LibraryManagement.java:139 | an upper-case ASCII letter becomes the matching lower-case letter, any other character stays as it is, and no upper-case letter comes out |
| Text.Lower | LibraryManagement.java:139 | toLowerCase keeps the length and lowers each character in place |
| Text.LowerIdempotent | LibraryManagement.java:139 | a lowered string has no upper-case letter, and lowering it again changes nothing |
| Text.Contains | LibraryManagement.java:143-144 | contains holds exactly when the keyword occurs as a substring at some position of the string |
| Text.ContainsStep | LibraryManagement.java:143-144 | when the keyword is not a prefix of a non-empty string, it occurs in the string exactly when it occurs in the string without its first character |
| Text.ContainsEmpty | LibraryManagement.java:143-144 | every string contains the empty string |
| LibraryState.Initial | LibraryManagement.java:50-53 | the library starts with no books, no members and both counters at 1, and satisfies the invariant |
| LibraryState.FindBook | LibraryManagement.java:199-202 | the lookup is None exactly when no book has the id; otherwise it is a position with that id and no earlier position has it |
| LibraryState.FindMember | LibraryManagement.java:204-207 | the lookup is None exactly when no member has the id; otherwise it is a position with that id and no earlier position has it |
| LibraryState.AddBook | LibraryManagement.java:64 | one book is appended, with id = the old bookCounter, the given title and author, and not borrowed; earlier books keep their places; bookCounter grows by one; the members and memberCounter are unchanged |
| LibraryState.AddMember | LibraryManagement.java:74 | one member is appended, with id = the old memberCounter, the given name and an empty list; earlier members keep their places; memberCounter grows by one; the books and bookCounter are unchanged |
| LibraryState.Lend | LibraryManagement.java:103-104 | book bi becomes borrowed and its id is appended to member mi's list; every other book and member and both counters are unchanged |
| LibraryState.Release | LibraryManagement.java:129-130 | book bi becomes available and the first occurrence of its id is removed from member mi's list; every other book and member and both counters are unchanged |
| LibraryState.Borrow | LibraryManagement.java:79-107 | a failed borrow leaves the state unchanged; a successful one has found the member and an available book, and lends exactly that book to exactly that member |
| LibraryState.Return | LibraryManagement.java:110-133 | a failed return leaves the state unchanged; a successful one has found the member, which lists the id, and the book, and releases exactly that book from exactly that member |
| LibraryState.BorrowOutcomes | LibraryManagement.java:83-104 | the outcome is MemberNotFound iff the member id is absent; BookNotFound iff the member exists and the book id is absent; AlreadyBorrowed iff both exist and the book is borrowed; every failure leaves the state unchanged; success lends exactly that book to exactly that member |
| LibraryState.ReturnOutcomes | LibraryManagement.java:114-130 | the outcome is MemberNotFound iff the member id is absent; NotBorrowedByMember iff the member exists and does not list the id, checked before any book lookup; NullPointer iff it lists an id that names no book; every failure leaves the state unchanged; success releases exactly that book from exactly that member |
| LibraryState.BorrowedIffListed | LibraryManagement.java:98-104 | under the invariant, a book is borrowed iff some member lists its id, and at most one member lists it |
| LibraryState.SequentialIdsIncrease | LibraryManagement.java:52-53 | every id handed out by a counter is at least 1 and below the counter, and ids strictly increase along the list |
| LibraryState.FindSequential | LibraryManagement.java:199-207 | with sequential ids, the lookup of id finds position id - 1 when 1 <= id < counter, and nothing otherwise |
| LibraryState.AddBookPreservesInvariant | LibraryManagement.java:64 | addBook keeps the invariant |
| LibraryState.AddMemberPreservesInvariant | LibraryManagement.java:74 | addMember keeps the invariant |
| LibraryState.AddBookFindsNew | LibraryManagement.java:64 | after addBook, the lookup of the old bookCounter finds the new available book at the end, and every other id is found where it was before |
| LibraryState.AddMemberFindsNew | LibraryManagement.java:74 | after addMember, the lookup of the old memberCounter finds the new member with an empty list at the end, and every other id is found where it was before |
| LibraryState.BorrowPreservesInvariant | LibraryManagement.java:79-107 | borrowBook keeps the invariant, whatever its outcome |
| LibraryState.ReturnPreservesInvariant | LibraryManagement.java:110-133 | returnBook keeps the invariant, whatever its outcome |
| LibraryState.ReturnNeverFaults | LibraryManagement.java:128-129 | under the invariant, the book returnBook dereferences always exists, so the NullPointerException never happens |
| LibraryState.BorrowThenReturn | LibraryManagement.java:98-130 | a successful borrow followed by the return of the same book by the same member succeeds and restores the library exactly |
| LibraryState.ReturnAfterLend | LibraryManagement.java:123-130 | returning right after lending an available book, which the member did not list, succeeds and undoes the lending |
| LibraryState.Step | LibraryManagement.java:229-233 | choices 1 and 2 append exactly one book or member, choices 3 and 4 keep both lengths; no choice changes an existing id, title, author or name, and each counter moves by exactly the number of additions |
| LibraryState.Run | LibraryManagement.java:229-233 | over a sequence of choices, the lists only grow, existing ids, titles, authors and names are kept, and each counter moves by exactly the number of additions |
| LibraryState.RunPreservesInvariant | LibraryManagement.java:229-233 | every sequence of menu choices 1 to 4 keeps the invariant |
| LibraryState.SessionIds | LibraryManagement.java:52-53 | in every session from the initial state, book and member ids are 1, 2, 3, ... in list order, each below its counter |
| LibraryState.RunPair | LibraryManagement.java:232-233 | running choice 3 and then choice 4 with the same ids is the return applied to the state the borrow left |
| LibraryState.RoundsCons | LibraryManagement.java:232-233 | one more round in front of rounds that leave a state alone leaves it alone too |
| LibraryState.RoundsIdle | LibraryManagement.java:232-233 | a state that running one round leaves alone is left alone by any number of rounds |
| LibraryState.RoundsFixpoint | LibraryManagement.java:232-233 | a state that one borrow-and-return round leaves alone is left alone by any number of rounds |
| LibraryState.RoundsRestore | LibraryManagement.java:232-233 | repeating a successful borrow and its return n times ends in the starting state |
| LibraryState.DuneAdded | LibraryManagement.java:64-74 | adding "Dune" by Herbert and then member "Alice" to an empty library gives both id 1 |
| LibraryState.DuneBorrowSteps | LibraryManagement.java:98-104 | borrow(1, 1) on the Dune/Alice library succeeds, with Alice's list [1]; repeating it reports AlreadyBorrowed |
| LibraryState.DuneReturnSteps | LibraryManagement.java:114-130 | return(1, 1) puts the library back on the shelf; repeating it reports NotBorrowedByMember; borrow(99, 1) reports MemberNotFound |
| LibraryState.Search | LibraryManagement.java:142-147 | every book in the result is a book of the list that matches the lowered keyword |
| LibraryState.SearchAppend | LibraryManagement.java:142 | searching a concatenation is the concatenation of the searches, which is the loop's step |
| LibraryState.SearchSingle | LibraryManagement.java:143-145 | one book is reported exactly when its lowered title or author contains the lowered keyword |
| LibraryState.SearchComplete | LibraryManagement.java:142-147 | every matching book of the list is in the result |
| LibraryState.SearchKeepsOrder | LibraryManagement.java:142 | the result is a subsequence of the list, so list order is kept |
| LibraryState.SearchEmptyKeyword | LibraryManagement.java:139-147 | the empty keyword matches every book, so the result is the whole list |
| LibraryState.SearchIgnoresCase | LibraryManagement.java:139 | the keyword is lowered first, so searching with it or its lowered form gives the same result |
| LibraryState.Matches | LibraryManagement.java:143-144 | a book matches exactly when the lowered keyword occurs in its lowered title or in its lowered author |
| LibraryState.ContainsTol | LibraryManagement.java:143-144 | a string with "Tol" at some position contains "tol" once lowered |
| LibraryState.LowerTol | LibraryManagement.java:139 | the keyword "TOL" lowers to "tol" |
| LibraryState.SearchTolkien | LibraryManagement.java:139-144 | searching "TOL" finds a book whose author is "J.R.R. Tolkien" |

## Left out

- Console I/O is not modelled: the Scanner reads, every `System.out` message, `toString`
  (lines 18-24 and 39-44), and the menu loop with its invalid-choice branch (lines
  210-246). The inputs are parameters and the messages are `Outcome` values.
- `displayBooks` and `displayMembers` (lines 151-164) only print. `Snapshot()` gives the
  same lists as values.
- The file `library.dat` and Java object serialization are not modelled, nor is the byte
  format. `SaveData` returns the snapshot value instead of writing it.
- LibraryManagement.LibrarySystem.LoadData: `None` stands for "no saved data" and
  `Some(snapshot)` for a file read to the end. A read that fails part-way is not modelled.
  The source assigns the fields one by one (lines 186-189), so before the exception it
  may already have replaced:
  - `books` only, when the second `readObject` fails;
  - `books` and `members`, when the first `readInt` fails;
  - `books`, `members` and `bookCounter`, when the second `readInt` fails, leaving the old
    `memberCounter`.
- Text.LowerChar: only 'A'..'Z' are lowered. Java's `toLowerCase` also lowers the other
  Unicode upper-case letters, and its result depends on the locale.
- Text.Lower: built from LowerChar, so it has the same ASCII-only gap and no
  length-changing Unicode mappings.
- `static` and `Serializable` have no counterpart. The state is the fields of one
  `LibrarySystem` object.
- LibraryManagement.LibrarySystem.AddBook: bookCounter is an unbounded integer, so it does
  not wrap at 2^31 - 1 like the Java `int` after that many additions.
- LibraryManagement.LibrarySystem.AddMember: memberCounter is an unbounded integer, so it
  does not wrap at 2^31 - 1 like the Java `int`.
- LibraryState.AddBook: the same unbounded bookCounter as the class method.
- LibraryState.AddMember: the same unbounded memberCounter as the class method.
- LibraryManagement.LibrarySystem.ReturnBook: the NullPointerException ends the program in
  the source. In the model it is the outcome `NullPointer` with the state unchanged.
- `LibrarySystem.Valid()` states only that no object is listed twice. The lending invariant
  is proved on the value view (`LibraryState.Invariant`) and reaches the objects through
  each method's `Snapshot()` contract. It is not a precondition of the methods, because
  the source does not require it of its callers.
