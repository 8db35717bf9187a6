/** The library's state as plain values, and every operation of LibrarySystem as a
    function from the old state to the new one. The classes of LibraryManagement are
    proved to follow these functions; the lemmas here say what the functions promise. */
module LibraryState {
  import opened Lists
  import opened Text

  /** What a Book object holds. */
  datatype BookRecord = BookRecord(id: int, title: string, author: string, isBorrowed: bool)

  /** What a Member object holds; borrowedBooks keeps the ids in borrowing order. */
  datatype MemberRecord = MemberRecord(id: int, name: string, borrowedBooks: seq<int>)

  /** The four static fields of LibrarySystem; also the snapshot saveData writes and
      loadData reads back, field by field in this order. */
  datatype Library = Library(books: seq<BookRecord>, members: seq<MemberRecord>,
                             bookCounter: int, memberCounter: int)

  /** What borrowBook and returnBook report. NullPointer is the NullPointerException that
      returnBook raises when the id its member lists names no book: it is thrown before
      anything is changed. */
  datatype Outcome = Success | MemberNotFound | BookNotFound | AlreadyBorrowed
                   | NotBorrowedByMember | NullPointer

  /** The static initialisers: two empty lists and both counters at 1, a state that
      satisfies the invariant. */
  function Initial(): (r: Library)
    ensures r.books == [] && r.members == [] && r.bookCounter == 1 && r.memberCounter == 1
    ensures Invariant(r)
  {
    Library([], [], 1, 1)
  }

  function BookIds(bs: seq<BookRecord>): (ids: seq<int>)
    ensures |ids| == |bs| && forall i :: 0 <= i < |bs| ==> ids[i] == bs[i].id
  {
    seq(|bs|, i requires 0 <= i < |bs| => bs[i].id)
  }

  function MemberIds(ms: seq<MemberRecord>): (ids: seq<int>)
    ensures |ids| == |ms| && forall i :: 0 <= i < |ms| ==> ids[i] == ms[i].id
  {
    seq(|ms|, i requires 0 <= i < |ms| => ms[i].id)
  }

  /** getBookById: the position of the first book carrying this id. */
  function FindBook(bs: seq<BookRecord>, id: int): (r: Option<nat>)
    ensures r.None? <==> forall i :: 0 <= i < |bs| ==> bs[i].id != id
    ensures r.Some? ==> r.value < |bs| && bs[r.value].id == id
                        && forall j :: 0 <= j < r.value ==> bs[j].id != id
  {
    var ids := BookIds(bs);
    var found := IndexOf(ids, id);
    assert found.Some? ==> forall j :: 0 <= j < found.value ==> ids[..found.value][j] == ids[j];
    found
  }

  /** getMemberById: the position of the first member carrying this id. */
  function FindMember(ms: seq<MemberRecord>, id: int): (r: Option<nat>)
    ensures r.None? <==> forall i :: 0 <= i < |ms| ==> ms[i].id != id
    ensures r.Some? ==> r.value < |ms| && ms[r.value].id == id
                        && forall j :: 0 <= j < r.value ==> ms[j].id != id
  {
    var ids := MemberIds(ms);
    var found := IndexOf(ids, id);
    assert found.Some? ==> forall j :: 0 <= j < found.value ==> ids[..found.value][j] == ids[j];
    found
  }

  // ------------------------------------------------------------------ operations

  /** addBook: the new book takes the current counter as its id and is not borrowed. */
  function AddBook(s: Library, title: string, author: string): (r: Library)
    ensures |r.books| == |s.books| + 1 && r.books[..|s.books|] == s.books
    ensures r.books[|s.books|] == BookRecord(s.bookCounter, title, author, false)
    ensures r.bookCounter == s.bookCounter + 1
    ensures r.members == s.members && r.memberCounter == s.memberCounter
  {
    s.(books := s.books + [BookRecord(s.bookCounter, title, author, false)],
       bookCounter := s.bookCounter + 1)
  }

  /** addMember: the new member takes the current counter as its id and holds no book. */
  function AddMember(s: Library, name: string): (r: Library)
    ensures |r.members| == |s.members| + 1 && r.members[..|s.members|] == s.members
    ensures r.members[|s.members|] == MemberRecord(s.memberCounter, name, [])
    ensures r.memberCounter == s.memberCounter + 1
    ensures r.books == s.books && r.bookCounter == s.bookCounter
  {
    s.(members := s.members + [MemberRecord(s.memberCounter, name, [])],
       memberCounter := s.memberCounter + 1)
  }

  /** The two assignments of a successful borrowBook: book bi is flagged and its id is
      appended to member mi's list. */
  function Lend(s: Library, mi: nat, bi: nat): (r: Library)
    requires mi < |s.members| && bi < |s.books|
    ensures Lent(s, r, mi, bi)
  {
    var m := s.members[mi];
    s.(books := s.books[bi := s.books[bi].(isBorrowed := true)],
       members := s.members[mi := m.(borrowedBooks := m.borrowedBooks + [s.books[bi].id])])
  }

  /** The two assignments of a successful returnBook: book bi is cleared and its id is
      removed from member mi's list. */
  function Release(s: Library, mi: nat, bi: nat): (r: Library)
    requires mi < |s.members| && bi < |s.books|
    ensures Released(s, r, mi, bi)
  {
    var m := s.members[mi];
    s.(books := s.books[bi := s.books[bi].(isBorrowed := false)],
       members := s.members[mi := m.(borrowedBooks := RemoveFirst(m.borrowedBooks, s.books[bi].id))])
  }

  /** t is s with book bi marked borrowed and its id appended to member mi's list. */
  ghost predicate Lent(s: Library, t: Library, mi: nat, bi: nat)
  {
    && mi < |s.members| && bi < |s.books|
    && t.bookCounter == s.bookCounter && t.memberCounter == s.memberCounter
    && |t.books| == |s.books| && |t.members| == |s.members|
    && t.books[bi] == s.books[bi].(isBorrowed := true)
    && t.members[mi] == s.members[mi].(borrowedBooks := s.members[mi].borrowedBooks + [s.books[bi].id])
    && (forall j :: 0 <= j < |s.books| && j != bi ==> t.books[j] == s.books[j])
    && (forall j :: 0 <= j < |s.members| && j != mi ==> t.members[j] == s.members[j])
  }

  /** t is s with book bi marked available and its id removed from member mi's list. */
  ghost predicate Released(s: Library, t: Library, mi: nat, bi: nat)
  {
    && mi < |s.members| && bi < |s.books|
    && t.bookCounter == s.bookCounter && t.memberCounter == s.memberCounter
    && |t.books| == |s.books| && |t.members| == |s.members|
    && t.books[bi] == s.books[bi].(isBorrowed := false)
    && t.members[mi] == s.members[mi].(borrowedBooks := RemoveFirst(s.members[mi].borrowedBooks, s.books[bi].id))
    && (forall j :: 0 <= j < |s.books| && j != bi ==> t.books[j] == s.books[j])
    && (forall j :: 0 <= j < |s.members| && j != mi ==> t.members[j] == s.members[j])
  }

  /** borrowBook: member lookup, then book lookup, then the borrowed flag; each failing
      guard leaves the state as it was. */
  function Borrow(s: Library, memberId: int, bookId: int): (r: (Library, Outcome))
    ensures r.1 != Success ==> r.0 == s
    ensures r.1 == Success ==>
              && FindMember(s.members, memberId).Some? && FindBook(s.books, bookId).Some?
              && !s.books[FindBook(s.books, bookId).value].isBorrowed
              && Lent(s, r.0, FindMember(s.members, memberId).value, FindBook(s.books, bookId).value)
  {
    match FindMember(s.members, memberId)
    case None => (s, MemberNotFound)
    case Some(mi) =>
      match FindBook(s.books, bookId)
      case None => (s, BookNotFound)
      case Some(bi) =>
        if s.books[bi].isBorrowed then (s, AlreadyBorrowed)
        else (Lend(s, mi, bi), Success)
  }

  /** returnBook: member lookup, then the check on the member's own list, and only then
      the book lookup; each failing guard leaves the state as it was. */
  function Return(s: Library, memberId: int, bookId: int): (r: (Library, Outcome))
    ensures r.1 != Success ==> r.0 == s
    ensures r.1 == Success ==>
              && FindMember(s.members, memberId).Some? && FindBook(s.books, bookId).Some?
              && bookId in s.members[FindMember(s.members, memberId).value].borrowedBooks
              && Released(s, r.0, FindMember(s.members, memberId).value, FindBook(s.books, bookId).value)
  {
    match FindMember(s.members, memberId)
    case None => (s, MemberNotFound)
    case Some(mi) =>
      var m := s.members[mi];
      if bookId !in m.borrowedBooks then (s, NotBorrowedByMember)
      else
        match FindBook(s.books, bookId)
        case None => (s, NullPointer)
        case Some(bi) => (Release(s, mi, bi), Success)
  }

  /** Which guard of borrowBook fails, in terms of the ids present; a failing guard changes nothing, and success changes exactly the chosen book and member. */
  lemma BorrowOutcomes(s: Library, memberId: int, bookId: int)
    ensures Borrow(s, memberId, bookId).1 == MemberNotFound <==> memberId !in MemberIds(s.members)
    ensures Borrow(s, memberId, bookId).1 == BookNotFound <==> memberId in MemberIds(s.members) && bookId !in BookIds(s.books)
    ensures Borrow(s, memberId, bookId).1 == AlreadyBorrowed <==>
              memberId in MemberIds(s.members) && bookId in BookIds(s.books)
              && s.books[FindBook(s.books, bookId).value].isBorrowed
    ensures Borrow(s, memberId, bookId).1 != Success ==> Borrow(s, memberId, bookId).0 == s
    ensures Borrow(s, memberId, bookId).1 == Success ==>
              && FindMember(s.members, memberId).Some? && FindBook(s.books, bookId).Some?
              && Lent(s, Borrow(s, memberId, bookId).0, FindMember(s.members, memberId).value, FindBook(s.books, bookId).value)
    ensures Borrow(s, memberId, bookId).1 in {Success, MemberNotFound, BookNotFound, AlreadyBorrowed}
  {
  }

  /** Which guard of returnBook fails; a failing guard changes nothing, and success changes exactly the returned book and the returning member. */
  lemma ReturnOutcomes(s: Library, memberId: int, bookId: int)
    ensures Return(s, memberId, bookId).1 == MemberNotFound <==> memberId !in MemberIds(s.members)
    ensures Return(s, memberId, bookId).1 == NotBorrowedByMember <==>
              memberId in MemberIds(s.members)
              && bookId !in s.members[FindMember(s.members, memberId).value].borrowedBooks
    ensures Return(s, memberId, bookId).1 == NullPointer <==>
              memberId in MemberIds(s.members)
              && bookId in s.members[FindMember(s.members, memberId).value].borrowedBooks
              && bookId !in BookIds(s.books)
    ensures Return(s, memberId, bookId).1 != Success ==> Return(s, memberId, bookId).0 == s
    ensures Return(s, memberId, bookId).1 == Success ==>
              && FindMember(s.members, memberId).Some? && FindBook(s.books, bookId).Some?
              && Released(s, Return(s, memberId, bookId).0, FindMember(s.members, memberId).value, FindBook(s.books, bookId).value)
    ensures Return(s, memberId, bookId).1 in {Success, MemberNotFound, NotBorrowedByMember, NullPointer}
  {
  }

  // ------------------------------------------------------------------ invariant

  /** How many members list this book id among their borrowed books. */
  function Holders(ms: seq<MemberRecord>, id: int): (n: nat)
    ensures n <= |ms|
  {
    if ms == [] then 0
    else (if id in ms[0].borrowedBooks then 1 else 0) + Holders(ms[1..], id)
  }

  /** Ids handed out by a counter that started at 1 and moved by one per record. */
  ghost predicate IdsSequential(ids: seq<int>, counter: int)
  {
    counter == |ids| + 1 && forall i :: 0 <= i < |ids| ==> ids[i] == i + 1
  }

  /** What every operation keeps: sequential ids on both sides, no member lists a book
      twice, every listed id names a book, and a book is borrowed exactly when one member
      lists it (and no member lists it otherwise). */
  ghost predicate Invariant(s: Library)
  {
    && IdsSequential(BookIds(s.books), s.bookCounter)
    && IdsSequential(MemberIds(s.members), s.memberCounter)
    && (forall k :: 0 <= k < |s.members| ==> NoDuplicates(s.members[k].borrowedBooks))
    && (forall k, id :: 0 <= k < |s.members| && id in s.members[k].borrowedBooks ==> id in BookIds(s.books))
    && (forall i :: 0 <= i < |s.books| ==>
          Holders(s.members, s.books[i].id) == if s.books[i].isBorrowed then 1 else 0)
  }

  lemma {:induction false} HoldersZero(ms: seq<MemberRecord>, id: int)
    ensures Holders(ms, id) == 0 <==> forall k :: 0 <= k < |ms| ==> id !in ms[k].borrowedBooks
  {
    if ms != [] {
      HoldersZero(ms[1..], id);
      assert forall k :: 1 <= k < |ms| ==> ms[k] == ms[1..][k - 1];
    }
  }

  /** A member listing an id counts towards its holders. */
  lemma HoldersPositive(ms: seq<MemberRecord>, id: int, j: nat)
    requires j < |ms| && id in ms[j].borrowedBooks
    ensures Holders(ms, id) >= 1
  {
    HoldersZero(ms, id);
  }

  /** When an id is held at most once, no member but its holder lists it. */
  lemma {:induction false} HoldersUnique(ms: seq<MemberRecord>, id: int, j: nat)
    requires Holders(ms, id) <= 1
    requires j < |ms| && id in ms[j].borrowedBooks
    ensures forall k :: 0 <= k < |ms| && k != j ==> id !in ms[k].borrowedBooks
  {
    if j == 0 {
      HoldersZero(ms[1..], id);
      forall k | 0 < k < |ms|
        ensures id !in ms[k].borrowedBooks
      {
        assert ms[k] == ms[1..][k - 1];
      }
    } else {
      HoldersUnique(ms[1..], id, j - 1);
      HoldersPositive(ms[1..], id, j - 1);
      forall k | 0 < k < |ms| && k != j
        ensures id !in ms[k].borrowedBooks
      {
        assert ms[k] == ms[1..][k - 1];
      }
    }
  }

  /** Replacing one member changes the count only by what that member lists. */
  lemma {:induction false} HoldersUpdate(ms: seq<MemberRecord>, k: nat, m: MemberRecord, id: int)
    requires k < |ms|
    ensures Holders(ms[k := m], id)
            == Holders(ms, id) - (if id in ms[k].borrowedBooks then 1 else 0)
                               + (if id in m.borrowedBooks then 1 else 0)
  {
    if k != 0 {
      assert ms[k := m][1..] == ms[1..][k - 1 := m];
      HoldersUpdate(ms[1..], k - 1, m, id);
    }
  }

  lemma {:induction false} HoldersAppend(ms: seq<MemberRecord>, m: MemberRecord, id: int)
    ensures Holders(ms + [m], id) == Holders(ms, id) + (if id in m.borrowedBooks then 1 else 0)
  {
    if ms != [] {
      assert (ms + [m])[1..] == ms[1..] + [m];
      HoldersAppend(ms[1..], m, id);
    }
  }

  /** The invariant's borrowed flag means what the source relies on: a borrowed book is
      listed by exactly one member, an available book by none. */
  lemma BorrowedIffListed(s: Library, i: nat)
    requires Invariant(s) && i < |s.books|
    ensures s.books[i].isBorrowed <==>
              exists k :: 0 <= k < |s.members| && s.books[i].id in s.members[k].borrowedBooks
    ensures forall j, k :: 0 <= j < |s.members| && 0 <= k < |s.members|
              && s.books[i].id in s.members[j].borrowedBooks && s.books[i].id in s.members[k].borrowedBooks
              ==> j == k
  {
    var id := s.books[i].id;
    HoldersZero(s.members, id);
    forall j, k | 0 <= j < |s.members| && 0 <= k < |s.members|
        && id in s.members[j].borrowedBooks && id in s.members[k].borrowedBooks
      ensures j == k
    {
      HoldersUnique(s.members, id, j);
    }
  }

  /** Sequential ids are strictly increasing, start at 1 and stay below the counter. */
  lemma SequentialIdsIncrease(ids: seq<int>, counter: int)
    requires IdsSequential(ids, counter)
    ensures forall i :: 0 <= i < |ids| ==> 1 <= ids[i] < counter
    ensures forall i, j :: 0 <= i < j < |ids| ==> ids[i] < ids[j]
  {
  }

  /** Under sequential ids the lookup of id finds position id - 1, or nothing. */
  lemma FindSequential(ids: seq<int>, counter: int, id: int)
    requires IdsSequential(ids, counter)
    ensures IndexOf(ids, id) == if 1 <= id < counter then Some(id - 1) else None
  {
    if 1 <= id < counter {
      var before := ids[..id - 1];
      forall j | 0 <= j < |before|
        ensures before[j] == j + 1
      {
      }
      IndexOfFirst(ids, id, id - 1);
    } else {
      assert id !in ids;
    }
  }

  lemma AddBookPreservesInvariant(s: Library, title: string, author: string)
    requires Invariant(s)
    ensures Invariant(AddBook(s, title, author))
  {
    var t := AddBook(s, title, author);
    var id := s.bookCounter;
    assert id !in BookIds(s.books);
    HoldersZero(s.members, id);
    assert BookIds(t.books) == BookIds(s.books) + [id];
  }

  lemma AddMemberPreservesInvariant(s: Library, name: string)
    requires Invariant(s)
    ensures Invariant(AddMember(s, name))
  {
    var m := MemberRecord(s.memberCounter, name, []);
    forall id
      ensures Holders(s.members + [m], id) == Holders(s.members, id)
    {
      HoldersAppend(s.members, m, id);
    }
    assert MemberIds(s.members + [m]) == MemberIds(s.members) + [s.memberCounter];
  }

  /** After addBook, getBookById finds the new book under the id it was given, and every
      other id finds what it found before. */
  lemma AddBookFindsNew(s: Library, title: string, author: string)
    requires Invariant(s)
    ensures FindBook(AddBook(s, title, author).books, s.bookCounter) == Some(|s.books|)
    ensures AddBook(s, title, author).books[|s.books|] == BookRecord(s.bookCounter, title, author, false)
    ensures forall id :: id != s.bookCounter ==>
              FindBook(AddBook(s, title, author).books, id) == FindBook(s.books, id)
  {
    var t := AddBook(s, title, author);
    AddBookPreservesInvariant(s, title, author);
    forall id
      ensures FindBook(t.books, id) == if 1 <= id < t.bookCounter then Some(id - 1) else None
      ensures FindBook(s.books, id) == if 1 <= id < s.bookCounter then Some(id - 1) else None
    {
      FindSequential(BookIds(t.books), t.bookCounter, id);
      FindSequential(BookIds(s.books), s.bookCounter, id);
    }
  }

  /** After addMember, getMemberById finds the new member under the id it was given, and
      every other id finds what it found before. */
  lemma AddMemberFindsNew(s: Library, name: string)
    requires Invariant(s)
    ensures FindMember(AddMember(s, name).members, s.memberCounter) == Some(|s.members|)
    ensures AddMember(s, name).members[|s.members|] == MemberRecord(s.memberCounter, name, [])
    ensures forall id :: id != s.memberCounter ==>
              FindMember(AddMember(s, name).members, id) == FindMember(s.members, id)
  {
    var t := AddMember(s, name);
    AddMemberPreservesInvariant(s, name);
    forall id
      ensures FindMember(t.members, id) == if 1 <= id < t.memberCounter then Some(id - 1) else None
      ensures FindMember(s.members, id) == if 1 <= id < s.memberCounter then Some(id - 1) else None
    {
      FindSequential(MemberIds(t.members), t.memberCounter, id);
      FindSequential(MemberIds(s.members), s.memberCounter, id);
    }
  }

  lemma BorrowPreservesInvariant(s: Library, memberId: int, bookId: int)
    requires Invariant(s)
    ensures Invariant(Borrow(s, memberId, bookId).0)
  {
    var (t, outcome) := Borrow(s, memberId, bookId);
    if outcome == Success {
      var mi, bi := FindMember(s.members, memberId).value, FindBook(s.books, bookId).value;
      var id := s.books[bi].id;
      var old_m := s.members[mi];
      HoldersZero(s.members, id);
      assert id !in old_m.borrowedBooks;
      AppendNoDuplicates(old_m.borrowedBooks, id);
      assert t.members == s.members[mi := t.members[mi]];
      assert BookIds(t.books) == BookIds(s.books);
      assert MemberIds(t.members) == MemberIds(s.members);
      forall i | 0 <= i < |t.books|
        ensures Holders(t.members, t.books[i].id) == if t.books[i].isBorrowed then 1 else 0
      {
        HoldersUpdate(s.members, mi, t.members[mi], t.books[i].id);
      }
      forall k, x | 0 <= k < |t.members| && x in t.members[k].borrowedBooks
        ensures x in BookIds(t.books)
      {
        if k == mi && x == id {
          assert BookIds(s.books)[bi] == id;
        }
      }
    }
  }

  lemma ReturnPreservesInvariant(s: Library, memberId: int, bookId: int)
    requires Invariant(s)
    ensures Invariant(Return(s, memberId, bookId).0)
  {
    var (t, outcome) := Return(s, memberId, bookId);
    if outcome == Success {
      var mi, bi := FindMember(s.members, memberId).value, FindBook(s.books, bookId).value;
      var id := s.books[bi].id;
      var old_m := s.members[mi];
      assert id == bookId && id in old_m.borrowedBooks;
      HoldersZero(s.members, id);
      RemoveFirstNoDuplicates(old_m.borrowedBooks, id);
      assert t.members == s.members[mi := t.members[mi]];
      assert BookIds(t.books) == BookIds(s.books);
      assert MemberIds(t.members) == MemberIds(s.members);
      forall i | 0 <= i < |t.books|
        ensures Holders(t.members, t.books[i].id) == if t.books[i].isBorrowed then 1 else 0
      {
        HoldersUpdate(s.members, mi, t.members[mi], t.books[i].id);
      }
    }
  }

  /** With the invariant in place, the book that returnBook dereferences always exists. */
  lemma ReturnNeverFaults(s: Library, memberId: int, bookId: int)
    requires Invariant(s)
    ensures Return(s, memberId, bookId).1 != NullPointer
  {
    match FindMember(s.members, memberId)
    case None =>
    case Some(mi) =>
  }

  /** A successful borrow followed by the return of the same book by the same member
      restores the library exactly. */
  lemma BorrowThenReturn(s: Library, memberId: int, bookId: int)
    requires Invariant(s)
    requires Borrow(s, memberId, bookId).1 == Success
    ensures Return(Borrow(s, memberId, bookId).0, memberId, bookId) == (s, Success)
  {
    var mi, bi := FindMember(s.members, memberId).value, FindBook(s.books, bookId).value;
    assert Borrow(s, memberId, bookId).0 == Lend(s, mi, bi);
    assert s.books[bi].id == bookId && !s.books[bi].isBorrowed;
    HoldersZero(s.members, bookId);
    ReturnAfterLend(s, memberId, bookId, mi, bi);
  }

  /** Returning right after lending one book to one member undoes the lending, provided
      the member did not list the book before. */
  lemma ReturnAfterLend(s: Library, memberId: int, bookId: int, mi: nat, bi: nat)
    requires FindMember(s.members, memberId) == Some(mi) && FindBook(s.books, bookId) == Some(bi)
    requires !s.books[bi].isBorrowed && bookId !in s.members[mi].borrowedBooks
    ensures Return(Lend(s, mi, bi), memberId, bookId) == (s, Success)
  {
    var t := Lend(s, mi, bi);
    assert BookIds(t.books) == BookIds(s.books);
    assert MemberIds(t.members) == MemberIds(s.members);
    assert t.members[mi].borrowedBooks == s.members[mi].borrowedBooks + [bookId];
    RemoveFirstOfAppended(s.members[mi].borrowedBooks, bookId);
    var u := Release(t, mi, bi);
    assert u.books == s.books;
    assert u.members == s.members;
  }

  // ------------------------------------------------------------------ sessions

  /** One menu choice that changes the state (choices 1 to 4 of the main menu). */
  datatype Command =
    | AddBookCommand(title: string, author: string)
    | AddMemberCommand(name: string)
    | BorrowCommand(memberId: int, bookId: int)
    | ReturnCommand(memberId: int, bookId: int)

  /** t is s after some commands: the lists only grow, each counter moved exactly as far
      as its list grew, and every record already there keeps its id and its text. */
  ghost predicate Extends(s: Library, t: Library)
  {
    && |s.books| <= |t.books| && |s.members| <= |t.members|
    && t.bookCounter - s.bookCounter == |t.books| - |s.books|
    && t.memberCounter - s.memberCounter == |t.members| - |s.members|
    && (forall i :: 0 <= i < |s.books| ==>
          t.books[i].id == s.books[i].id && t.books[i].title == s.books[i].title
          && t.books[i].author == s.books[i].author)
    && (forall i :: 0 <= i < |s.members| ==>
          t.members[i].id == s.members[i].id && t.members[i].name == s.members[i].name)
  }

  /** The menu's dispatch on choices 1 to 4. Only an addition grows a list and moves its
      counter; borrowing and returning change flags and borrowed lists only. */
  function Step(s: Library, c: Command): (r: Library)
    ensures |r.books| == |s.books| + (if c.AddBookCommand? then 1 else 0)
    ensures |r.members| == |s.members| + (if c.AddMemberCommand? then 1 else 0)
    ensures Extends(s, r)
  {
    match c
    case AddBookCommand(title, author) => AddBook(s, title, author)
    case AddMemberCommand(name) => AddMember(s, name)
    case BorrowCommand(memberId, bookId) => Borrow(s, memberId, bookId).0
    case ReturnCommand(memberId, bookId) => Return(s, memberId, bookId).0
  }

  /** A session: the commands applied one after the other. Ids once handed out are never
      changed or taken back. */
  function Run(s: Library, cs: seq<Command>): (r: Library)
    ensures Extends(s, r)
    decreases |cs|
  {
    if cs == [] then s else Run(Step(s, cs[0]), cs[1..])
  }

  lemma {:induction false} RunAppend(s: Library, cs: seq<Command>, ds: seq<Command>)
    ensures Run(s, cs + ds) == Run(Run(s, cs), ds)
    decreases |cs|
  {
    if cs == [] {
      assert cs + ds == ds;
    } else {
      assert (cs + ds)[0] == cs[0];
      assert (cs + ds)[1..] == cs[1..] + ds;
      RunAppend(Step(s, cs[0]), cs[1..], ds);
    }
  }

  lemma {:induction false} RunPreservesInvariant(s: Library, cs: seq<Command>)
    requires Invariant(s)
    ensures Invariant(Run(s, cs))
    decreases |cs|
  {
    if cs != [] {
      match cs[0] {
      case AddBookCommand(title, author) => AddBookPreservesInvariant(s, title, author);
      case AddMemberCommand(name) => AddMemberPreservesInvariant(s, name);
      case BorrowCommand(memberId, bookId) => BorrowPreservesInvariant(s, memberId, bookId);
      case ReturnCommand(memberId, bookId) => ReturnPreservesInvariant(s, memberId, bookId);
      }
      RunPreservesInvariant(Step(s, cs[0]), cs[1..]);
    }
  }

  /** In every session that starts from the initial state, book and member ids are
      1, 2, 3, ... in list order, so they are strictly increasing, unique and below
      their counter. */
  lemma SessionIds(cs: seq<Command>)
    ensures IdsSequential(BookIds(Run(Initial(), cs).books), Run(Initial(), cs).bookCounter)
    ensures IdsSequential(MemberIds(Run(Initial(), cs).members), Run(Initial(), cs).memberCounter)
  {
    RunPreservesInvariant(Initial(), cs);
  }

  /** n rounds of borrowing and returning one book. */
  function Rounds(memberId: int, bookId: int, n: nat): (cs: seq<Command>)
    ensures |cs| == 2 * n
  {
    if n == 0 then [] else [BorrowCommand(memberId, bookId), ReturnCommand(memberId, bookId)] + Rounds(memberId, bookId, n - 1)
  }

  /** Running one borrow command and then its return is the return applied to the borrow's state. */
  lemma RunPair(s: Library, memberId: int, bookId: int)
    ensures Run(s, [BorrowCommand(memberId, bookId), ReturnCommand(memberId, bookId)])
            == Return(Borrow(s, memberId, bookId).0, memberId, bookId).0
  {
    var pair := [BorrowCommand(memberId, bookId), ReturnCommand(memberId, bookId)];
    var back := [ReturnCommand(memberId, bookId)];
    var t := Step(s, pair[0]);
    assert pair[1..] == back;
    assert Run(s, pair) == Run(t, back);
    assert back[1..] == [];
    assert Run(t, back) == Run(Step(t, back[0]), []);
  }

  /** One more round in front of rounds that leave a state alone leaves it alone too. */
  lemma RoundsCons(s: Library, memberId: int, bookId: int, n: nat)
    requires n != 0
    requires Run(s, [BorrowCommand(memberId, bookId), ReturnCommand(memberId, bookId)]) == s
    requires Run(s, Rounds(memberId, bookId, n - 1)) == s
    ensures Run(s, Rounds(memberId, bookId, n)) == s
  {
    var pair := [BorrowCommand(memberId, bookId), ReturnCommand(memberId, bookId)];
    assert Rounds(memberId, bookId, n) == pair + Rounds(memberId, bookId, n - 1);
    RunAppend(s, pair, Rounds(memberId, bookId, n - 1));
  }

  /** A state that a run of one round leaves alone is left alone by any number of rounds. */
  lemma {:induction false} RoundsIdle(s: Library, memberId: int, bookId: int, n: nat)
    requires Run(s, [BorrowCommand(memberId, bookId), ReturnCommand(memberId, bookId)]) == s
    ensures Run(s, Rounds(memberId, bookId, n)) == s
    decreases n
  {
    if n != 0 {
      RoundsIdle(s, memberId, bookId, n - 1);
      RoundsCons(s, memberId, bookId, n);
    }
  }

  /** A state that one borrow-and-return round leaves alone is left alone by any number of rounds. */
  lemma RoundsFixpoint(s: Library, memberId: int, bookId: int, n: nat)
    requires Return(Borrow(s, memberId, bookId).0, memberId, bookId).0 == s
    ensures Run(s, Rounds(memberId, bookId, n)) == s
  {
    RunPair(s, memberId, bookId);
    RoundsIdle(s, memberId, bookId, n);
  }

  /** Repeating a successful borrow and its return any number of times ends where it began. */
  lemma RoundsRestore(s: Library, memberId: int, bookId: int, n: nat)
    requires Invariant(s)
    requires Borrow(s, memberId, bookId).1 == Success
    ensures Run(s, Rounds(memberId, bookId, n)) == s
  {
    BorrowThenReturn(s, memberId, bookId);
    RoundsFixpoint(s, memberId, bookId, n);
  }

  /** Book "Dune" by Herbert and member "Alice" just added to an empty library. */
  function DuneShelved(): (r: Library)
  {
    Library([BookRecord(1, "Dune", "Herbert", false)], [MemberRecord(1, "Alice", [])], 2, 2)
  }

  /** The same library once Alice has borrowed Dune. */
  function DuneLent(): (r: Library)
  {
    Library([BookRecord(1, "Dune", "Herbert", true)], [MemberRecord(1, "Alice", [1])], 2, 2)
  }

  /** The first session starts by handing out id 1 to a book and id 1 to a member. */
  lemma DuneAdded()
    ensures AddMember(AddBook(Initial(), "Dune", "Herbert"), "Alice") == DuneShelved()
  {
  }

  /** Borrowing succeeds once and then reports AlreadyBorrowed. */
  lemma DuneBorrowSteps()
    ensures Borrow(DuneShelved(), 1, 1) == (DuneLent(), Success)
    ensures Borrow(DuneLent(), 1, 1) == (DuneLent(), AlreadyBorrowed)
  {
    var s0, s1 := DuneShelved(), DuneLent();
    assert FindMember(s0.members, 1) == Some(0) && FindBook(s0.books, 1) == Some(0);
    assert FindMember(s1.members, 1) == Some(0) && FindBook(s1.books, 1) == Some(0);
    assert s0.members[0].borrowedBooks + [1] == [1];
    assert s0.books[0 := s0.books[0].(isBorrowed := true)] == s1.books;
    assert s0.members[0 := s0.members[0].(borrowedBooks := [1])] == s1.members;
  }

  /** Returning succeeds once and then reports NotBorrowedByMember; an unknown member is
      reported as such. */
  lemma DuneReturnSteps()
    ensures Return(DuneLent(), 1, 1) == (DuneShelved(), Success)
    ensures Return(DuneShelved(), 1, 1) == (DuneShelved(), NotBorrowedByMember)
    ensures Borrow(DuneShelved(), 99, 1) == (DuneShelved(), MemberNotFound)
  {
    var s0, s1 := DuneShelved(), DuneLent();
    assert FindMember(s0.members, 1) == Some(0);
    assert FindMember(s1.members, 1) == Some(0) && FindBook(s1.books, 1) == Some(0);
    assert FindMember(s0.members, 99) == None;
    assert RemoveFirst([1], 1) == [];
    assert s1.books[0 := s1.books[0].(isBorrowed := false)] == s0.books;
    assert s1.members[0 := s1.members[0].(borrowedBooks := [])] == s0.members;
  }

  // ------------------------------------------------------------------ search

  /** A book matches when its lowered title or lowered author contains the lowered keyword. */
  predicate Matches(b: BookRecord, lowered: string): (r: bool)
    ensures r <==> Occurs(Lower(b.title), lowered) || Occurs(Lower(b.author), lowered)
  {
    Contains(Lower(b.title), lowered) || Contains(Lower(b.author), lowered)
  }

  /** searchBooks: the matching books, in list order. */
  function Search(bs: seq<BookRecord>, keyword: string): (r: seq<BookRecord>)
    ensures forall b :: b in r ==> b in bs && Matches(b, Lower(keyword))
  {
    if bs == [] then []
    else (if Matches(bs[0], Lower(keyword)) then [bs[0]] else []) + Search(bs[1..], keyword)
  }

  lemma {:induction false} SearchAppend(bs: seq<BookRecord>, cs: seq<BookRecord>, keyword: string)
    ensures Search(bs + cs, keyword) == Search(bs, keyword) + Search(cs, keyword)
  {
    if bs == [] {
      assert bs + cs == cs;
    } else {
      assert (bs + cs)[0] == bs[0];
      assert (bs + cs)[1..] == bs[1..] + cs;
      SearchAppend(bs[1..], cs, keyword);
    }
  }

  lemma SearchSingle(b: BookRecord, keyword: string)
    ensures Search([b], keyword) == if Matches(b, Lower(keyword)) then [b] else []
  {
    assert [b][1..] == [];
  }

  /** Every matching book is found. */
  lemma {:induction false} SearchComplete(bs: seq<BookRecord>, keyword: string, b: BookRecord)
    requires b in bs && Matches(b, Lower(keyword))
    ensures b in Search(bs, keyword)
  {
    if bs[0] != b {
      SearchComplete(bs[1..], keyword, b);
    }
  }

  /** r can be obtained from s by deleting elements, keeping the order of the rest. */
  ghost predicate IsSubsequence<T>(r: seq<T>, s: seq<T>)
    decreases |s|
  {
    if r == [] then true
    else if s == [] then false
    else (r[0] == s[0] && IsSubsequence(r[1..], s[1..])) || IsSubsequence(r, s[1..])
  }

  lemma {:induction false} SearchKeepsOrder(bs: seq<BookRecord>, keyword: string)
    ensures IsSubsequence(Search(bs, keyword), bs)
  {
    if bs != [] {
      SearchKeepsOrder(bs[1..], keyword);
      var r := Search(bs, keyword);
      if Matches(bs[0], Lower(keyword)) {
        assert r[0] == bs[0] && r[1..] == Search(bs[1..], keyword);
      } else {
        assert r == Search(bs[1..], keyword);
      }
    }
  }

  /** The empty keyword matches every book. */
  lemma {:induction false} SearchEmptyKeyword(bs: seq<BookRecord>)
    ensures Search(bs, "") == bs
  {
    if bs != [] {
      ContainsEmpty(Lower(bs[0].title));
      SearchEmptyKeyword(bs[1..]);
    }
  }

  /** The case of the keyword does not matter. */
  lemma {:induction false} SearchIgnoresCase(bs: seq<BookRecord>, keyword: string)
    ensures Search(bs, keyword) == Search(bs, Lower(keyword))
  {
    LowerIdempotent(keyword);
    if bs != [] {
      SearchIgnoresCase(bs[1..], keyword);
    }
  }

  /** A lowered string holds "tol" wherever the original holds "Tol". */
  lemma ContainsTol(a: string, i: nat)
    requires i + 3 <= |a| && a[i] == 'T' && a[i + 1] == 'o' && a[i + 2] == 'l'
    ensures Contains(Lower(a), "tol")
  {
    var lowered := Lower(a);
    assert lowered[i..i + 3] == "tol";
    assert OccursAt(lowered, "tol", i);
  }

  /** The keyword "TOL" lowers to "tol". */
  lemma LowerTol()
    ensures Lower("TOL") == "tol"
  {
    assert Lower("TOL")[0] == LowerChar('T');
  }

  /** Searching "TOL" finds a book by J.R.R. Tolkien, whatever its title. */
  lemma SearchTolkien(b: BookRecord)
    requires b.author == "J.R.R. Tolkien"
    ensures Search([b], "TOL") == [b]
  {
    LowerTol();
    ContainsTol(b.author, 7);
    assert Matches(b, "tol");
    SearchSingle(b, "TOL");
  }
}
