/** The classes of LibraryManagement.java. The static fields of LibrarySystem become the
    fields of one LibrarySystem object; the Scanner prompts become parameters and the
    printed messages become an Outcome. Each method that changes the state is proved to
    follow the matching function of LibraryState. */
module LibraryManagement {
  import opened Lists
  import opened Text
  import opened LibraryState

  class Book {
    var id: int
    var title: string
    var author: string
    var isBorrowed: bool

    /** A new book is available. */
    constructor (id: int, title: string, author: string)
      ensures Record() == BookRecord(id, title, author, false)
    {
      this.id := id;
      this.title := title;
      this.author := author;
      this.isBorrowed := false;
    }

    function Record(): (r: BookRecord)
      reads this
    {
      BookRecord(id, title, author, isBorrowed)
    }
  }

  class Member {
    var id: int
    var name: string
    var borrowedBooks: seq<int>

    /** A new member has borrowed nothing. */
    constructor (id: int, name: string)
      ensures Record() == MemberRecord(id, name, [])
    {
      this.id := id;
      this.name := name;
      this.borrowedBooks := [];
    }

    function Record(): (r: MemberRecord)
      reads this
    {
      MemberRecord(id, name, borrowedBooks)
    }
  }

  /** The records of a list of books, position by position. */
  function BookRecords(bs: seq<Book>): (rs: seq<BookRecord>)
    reads bs
    ensures |rs| == |bs| && forall i :: 0 <= i < |bs| ==> rs[i] == bs[i].Record()
  {
    seq(|bs|, i requires 0 <= i < |bs| reads bs => bs[i].Record())
  }

  function MemberRecords(ms: seq<Member>): (rs: seq<MemberRecord>)
    reads ms
    ensures |rs| == |ms| && forall i :: 0 <= i < |ms| ==> rs[i] == ms[i].Record()
  {
    seq(|ms|, i requires 0 <= i < |ms| reads ms => ms[i].Record())
  }

  /** The objects readObject rebuilds from saved book records: new, distinct, one per record. */
  method NewBooks(rs: seq<BookRecord>) returns (bs: seq<Book>)
    ensures |bs| == |rs|
    ensures forall i :: 0 <= i < |bs| ==> fresh(bs[i])
    ensures BookRecords(bs) == rs
    ensures forall i, j :: 0 <= i < j < |bs| ==> bs[i] != bs[j]
  {
    bs := [];
    while |bs| < |rs|
      invariant |bs| <= |rs|
      invariant forall i :: 0 <= i < |bs| ==> fresh(bs[i]) && bs[i].Record() == rs[i]
      invariant forall i, j :: 0 <= i < j < |bs| ==> bs[i] != bs[j]
    {
      var r := rs[|bs|];
      var b := new Book(r.id, r.title, r.author);
      b.isBorrowed := r.isBorrowed;
      bs := bs + [b];
    }
  }

  /** The objects readObject rebuilds from saved member records: new, distinct, one per record. */
  method NewMembers(rs: seq<MemberRecord>) returns (ms: seq<Member>)
    ensures |ms| == |rs|
    ensures forall i :: 0 <= i < |ms| ==> fresh(ms[i])
    ensures MemberRecords(ms) == rs
    ensures forall i, j :: 0 <= i < j < |ms| ==> ms[i] != ms[j]
  {
    ms := [];
    while |ms| < |rs|
      invariant |ms| <= |rs|
      invariant forall i :: 0 <= i < |ms| ==> fresh(ms[i]) && ms[i].Record() == rs[i]
      invariant forall i, j :: 0 <= i < j < |ms| ==> ms[i] != ms[j]
    {
      var r := rs[|ms|];
      var m := new Member(r.id, r.name);
      m.borrowedBooks := r.borrowedBooks;
      ms := ms + [m];
    }
  }

  class LibrarySystem {
    var books: seq<Book>
    var members: seq<Member>
    var bookCounter: int
    var memberCounter: int

    /** No Book and no Member object is listed twice, so changing one object changes
        one position of the view. */
    ghost predicate Valid()
      reads this
    {
      && (forall i, j :: 0 <= i < j < |books| ==> books[i] != books[j])
      && (forall i, j :: 0 <= i < j < |members| ==> members[i] != members[j])
    }

    /** The value view of the four fields: each object replaced by the record it holds. */
    function Snapshot(): (r: Library)
      reads this, books, members
    {
      Library(BookRecords(books), MemberRecords(members), bookCounter, memberCounter)
    }

    /** The static initialisers. */
    constructor ()
      ensures Valid() && Snapshot() == Initial()
    {
      books := [];
      members := [];
      bookCounter := 1;
      memberCounter := 1;
    }

    /** getBookById: the first book with this id, or null. */
    method GetBookById(id: int) returns (b: Book?)
      ensures FindBook(Snapshot().books, id).None? ==> b == null
      ensures FindBook(Snapshot().books, id).Some? ==> b == books[FindBook(Snapshot().books, id).value]
    {
      var i := 0;
      while i < |books|
        invariant 0 <= i <= |books|
        invariant forall k :: 0 <= k < i ==> books[k].id != id
      {
        if books[i].id == id {
          ghost var ids := BookIds(Snapshot().books);
          assert forall k :: 0 <= k < i ==> ids[..i][k] == books[k].id;
          IndexOfFirst(ids, id, i);
          return books[i];
        }
        i := i + 1;
      }
      assert id !in BookIds(Snapshot().books);
      return null;
    }

    /** getMemberById: the first member with this id, or null. */
    method GetMemberById(id: int) returns (m: Member?)
      ensures FindMember(Snapshot().members, id).None? ==> m == null
      ensures FindMember(Snapshot().members, id).Some? ==> m == members[FindMember(Snapshot().members, id).value]
    {
      var i := 0;
      while i < |members|
        invariant 0 <= i <= |members|
        invariant forall k :: 0 <= k < i ==> members[k].id != id
      {
        if members[i].id == id {
          ghost var ids := MemberIds(Snapshot().members);
          assert forall k :: 0 <= k < i ==> ids[..i][k] == members[k].id;
          IndexOfFirst(ids, id, i);
          return members[i];
        }
        i := i + 1;
      }
      assert id !in MemberIds(Snapshot().members);
      return null;
    }

    /** addBook: bookCounter++ yields the old counter and moves it on; then one new available
        book with that id is appended. */
    method AddBook(title: string, author: string)
      requires Valid()
      modifies this
      ensures Valid()
      ensures Snapshot() == LibraryState.AddBook(old(Snapshot()), title, author)
      ensures |books| == |old(books)| + 1 && books[..|old(books)|] == old(books)
      ensures fresh(books[|old(books)|]) && members == old(members)
    {
      var id := bookCounter;
      bookCounter := bookCounter + 1;
      var book := new Book(id, title, author);
      books := books + [book];
      assert BookRecords(books) == BookRecords(old(books)) + [book.Record()];
    }

    /** addMember: memberCounter++ yields the old counter and moves it on; then one new member
        with that id and no books is appended. */
    method AddMember(name: string)
      requires Valid()
      modifies this
      ensures Valid()
      ensures Snapshot() == LibraryState.AddMember(old(Snapshot()), name)
      ensures |members| == |old(members)| + 1 && members[..|old(members)|] == old(members)
      ensures fresh(members[|old(members)|]) && books == old(books)
    {
      var id := memberCounter;
      memberCounter := memberCounter + 1;
      var member := new Member(id, name);
      members := members + [member];
      assert MemberRecords(members) == MemberRecords(old(members)) + [member.Record()];
    }

    /** The two assignments of a successful borrow (book.isBorrowed = true, then
        member.borrowedBooks.add(book.id)) on the book at bi and the member at mi. */
    method Lend(member: Member, book: Book, ghost mi: nat, ghost bi: nat)
      requires Valid() && mi < |members| && bi < |books|
      requires members[mi] == member && books[bi] == book
      modifies book, member
      ensures Snapshot() == LibraryState.Lend(old(Snapshot()), mi, bi)
    {
      ghost var t := LibraryState.Lend(Snapshot(), mi, bi);
      book.isBorrowed := true;
      member.borrowedBooks := member.borrowedBooks + [book.id];
      forall j | 0 <= j < |books|
        ensures BookRecords(books)[j] == t.books[j]
      {
        if j != bi {
          assert books[j] != book;
        }
      }
      forall j | 0 <= j < |members|
        ensures MemberRecords(members)[j] == t.members[j]
      {
        if j != mi {
          assert members[j] != member;
        }
      }
    }

    /** The two assignments of a successful return (book.isBorrowed = false, then
        member.borrowedBooks.remove(id)) on the book at bi and the member at mi. */
    method Release(member: Member, book: Book, ghost mi: nat, ghost bi: nat)
      requires Valid() && mi < |members| && bi < |books|
      requires members[mi] == member && books[bi] == book
      modifies book, member
      ensures Snapshot() == LibraryState.Release(old(Snapshot()), mi, bi)
    {
      ghost var t := LibraryState.Release(Snapshot(), mi, bi);
      book.isBorrowed := false;
      member.borrowedBooks := RemoveFirst(member.borrowedBooks, book.id);
      forall j | 0 <= j < |books|
        ensures BookRecords(books)[j] == t.books[j]
      {
        if j != bi {
          assert books[j] != book;
        }
      }
      forall j | 0 <= j < |members|
        ensures MemberRecords(members)[j] == t.members[j]
      {
        if j != mi {
          assert members[j] != member;
        }
      }
    }

    /** borrowBook: the member lookup; the book lookup, the borrowed flag and the two
        updates follow in BorrowFound. */
    method BorrowBook(memberId: int, bookId: int) returns (outcome: Outcome)
      requires Valid()
      modifies books, members
      ensures Valid()
      ensures (Snapshot(), outcome) == Borrow(old(Snapshot()), memberId, bookId)
    {
      ghost var s := Snapshot();
      var member := GetMemberById(memberId);
      if member == null {
        return MemberNotFound;
      }
      ghost var mi := FindMember(s.members, memberId).value;
      assert Snapshot() == s;
      outcome := BorrowFound(member, memberId, bookId, mi);
    }

    /** The rest of borrowBook once the member is found: the book lookup, the borrowed
        flag, then the two updates. */
    method BorrowFound(member: Member, memberId: int, bookId: int, ghost mi: nat) returns (outcome: Outcome)
      requires Valid() && mi < |members| && members[mi] == member
      requires FindMember(Snapshot().members, memberId) == Some(mi)
      modifies books, members
      ensures Valid()
      ensures (Snapshot(), outcome) == Borrow(old(Snapshot()), memberId, bookId)
    {
      ghost var s := Snapshot();
      var book := GetBookById(bookId);
      if book == null {
        return BookNotFound;
      }
      ghost var bi := FindBook(s.books, bookId).value;
      assert book.isBorrowed == s.books[bi].isBorrowed;
      if book.isBorrowed {
        return AlreadyBorrowed;
      }
      assert Snapshot() == s;
      Lend(member, book, mi, bi);
      return Success;
    }

    /** returnBook: member lookup and the check on the member's own list; the book lookup
        and the two updates follow in ReturnListed. */
    method ReturnBook(memberId: int, bookId: int) returns (outcome: Outcome)
      requires Valid()
      modifies books, members
      ensures Valid()
      ensures (Snapshot(), outcome) == Return(old(Snapshot()), memberId, bookId)
    {
      ghost var s := Snapshot();
      var member := GetMemberById(memberId);
      if member == null {
        assert Return(s, memberId, bookId) == (s, MemberNotFound);
        return MemberNotFound;
      }
      ghost var mi := FindMember(s.members, memberId).value;
      assert member.borrowedBooks == s.members[mi].borrowedBooks;
      if bookId !in member.borrowedBooks {
        assert Return(s, memberId, bookId) == (s, NotBorrowedByMember);
        return NotBorrowedByMember;
      }
      assert Snapshot() == s;
      outcome := ReturnListed(member, memberId, bookId, mi);
    }

    /** The rest of returnBook once the member is known to list the book: the book lookup,
        whose null result is dereferenced, then the two updates. */
    method ReturnListed(member: Member, memberId: int, bookId: int, ghost mi: nat) returns (outcome: Outcome)
      requires Valid() && mi < |members| && members[mi] == member
      requires FindMember(Snapshot().members, memberId) == Some(mi)
      requires bookId in member.borrowedBooks
      modifies books, members
      ensures Valid()
      ensures (Snapshot(), outcome) == Return(old(Snapshot()), memberId, bookId)
    {
      ghost var s := Snapshot();
      var book := GetBookById(bookId);
      if book == null {
        assert Return(s, memberId, bookId) == (s, NullPointer);
        return NullPointer;
      }
      ghost var bi := FindBook(s.books, bookId).value;
      assert Return(s, memberId, bookId) == (LibraryState.Release(s, mi, bi), Success);
      assert Snapshot() == s;
      Release(member, book, mi, bi);
      return Success;
    }

    /** searchBooks: the records of the matching books, in list order. */
    method SearchBooks(keyword: string) returns (found: seq<BookRecord>)
      ensures found == Search(Snapshot().books, keyword)
    {
      ghost var all := Snapshot().books;
      var lowered := Lower(keyword);
      found := [];
      var i := 0;
      while i < |books|
        invariant 0 <= i <= |books|
        invariant found == Search(all[..i], keyword)
      {
        var book := books[i].Record();
        if Matches(book, lowered) {
          found := found + [book];
        }
        SearchAppend(all[..i], [all[i]], keyword);
        SearchSingle(all[i], keyword);
        PrefixExtend(all, i);
        i := i + 1;
      }
      assert all[..i] == all;
    }

    /** saveData: the two lists as records and the two counters, in the order they are
        written. */
    method SaveData() returns (snapshot: Library)
      ensures snapshot.books == BookRecords(books) && snapshot.members == MemberRecords(members)
      ensures snapshot.bookCounter == bookCounter && snapshot.memberCounter == memberCounter
    {
      snapshot := Library(BookRecords(books), MemberRecords(members), bookCounter, memberCounter);
    }

    /** loadData: Some(snapshot) when the file could be read, None when it is missing or
        unreadable; then nothing changes. */
    method LoadData(snapshot: Option<Library>)
      requires Valid()
      modifies this
      ensures Valid()
      ensures snapshot.None? ==> Snapshot() == old(Snapshot())
      ensures snapshot.Some? ==> Snapshot() == snapshot.value
      ensures snapshot.Some? ==> (forall i :: 0 <= i < |books| ==> fresh(books[i]))
                                 && (forall i :: 0 <= i < |members| ==> fresh(members[i]))
    {
      if snapshot.Some? {
        var s := snapshot.value;
        books := NewBooks(s.books);
        members := NewMembers(s.members);
        bookCounter := s.bookCounter;
        memberCounter := s.memberCounter;
      }
    }
  }

  /** Choice 9 followed by the next start-up: saving and loading back gives the same
      library, with fresh objects. */
  method SaveThenLoad(library: LibrarySystem)
    requires library.Valid()
    modifies library
    ensures library.Valid() && library.Snapshot() == old(library.Snapshot())
  {
    var snapshot := library.SaveData();
    library.LoadData(Some(snapshot));
  }

  /** A fresh system in which Dune is shelved and Alice registered, each with id 1. */
  method DuneSetup() returns (library: LibrarySystem)
    ensures fresh(library) && library.Valid() && library.Snapshot() == DuneShelved()
    ensures (forall i :: 0 <= i < |library.books| ==> fresh(library.books[i]))
            && (forall i :: 0 <= i < |library.members| ==> fresh(library.members[i]))
  {
    library := new LibrarySystem();
    library.AddBook("Dune", "Herbert");
    library.AddMember("Alice");
    DuneAdded();
  }

  /** The walk-through of a first session: after the two additions Alice borrows and returns
      Dune twice over, and the system ends as it was after the additions. */
  method DuneScenario() returns (library: LibrarySystem)
    ensures fresh(library) && library.Valid() && library.Snapshot() == DuneShelved()
  {
    library := DuneSetup();
    var lent, refused := DuneBorrowTwice(library);
    var returned, unlisted, stranger := DuneReturnTwice(library);
  }

  /** Alice borrows Dune: the first attempt succeeds, the second reports AlreadyBorrowed. */
  method DuneBorrowTwice(library: LibrarySystem) returns (first: Outcome, second: Outcome)
    requires library.Valid() && library.Snapshot() == DuneShelved()
    modifies library.books, library.members
    ensures first == Success && second == AlreadyBorrowed
    ensures library.Valid() && library.Snapshot() == DuneLent()
  {
    DuneBorrowSteps();
    first := library.BorrowBook(1, 1);
    second := library.BorrowBook(1, 1);
  }

  /** Alice returns Dune: the first return succeeds, the second reports NotBorrowedByMember;
      a borrow by the unknown member 99 is refused. */
  method DuneReturnTwice(library: LibrarySystem) returns (first: Outcome, second: Outcome, stranger: Outcome)
    requires library.Valid() && library.Snapshot() == DuneLent()
    modifies library.books, library.members
    ensures first == Success && second == NotBorrowedByMember && stranger == MemberNotFound
    ensures library.Valid() && library.Snapshot() == DuneShelved()
  {
    DuneReturnSteps();
    first := library.ReturnBook(1, 1);
    second := library.ReturnBook(1, 1);
    stranger := library.BorrowBook(99, 1);
  }
}
