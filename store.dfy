/** The three collections the handlers read and write, held in one
    in-memory database: the lookups the handlers issue (`findOne`,
    `findById`), the unique indexes the books collection declares, and the
    inserts, replacements and deletions the handlers perform. */
module Store {
  import opened Common
  import opened ErrorHandler
  import opened MemoryBookSchema
  import opened ContributionSchema
  import Paging

  /** A user as the handlers read it: `_id`, `email`, the stored password
      (hashing happens inside the user model, which is not part of this
      model) and `name`. */
  datatype User = User(id: ObjectId, email: string, password: string, name: string)

  // ---------------------------------------------------------------------
  // Errors the database raises

  /** MongoDB's E11000 error: it has a numeric `code` and neither a
      `statusCode` nor an `errorCode`. */
  function DuplicateKeyError(): (err: AppError)
    ensures err.kind == Mongo(11000) && err.statusCode == 0 && err.errorCode == ""
  {
    AppError(0, "", Some("E11000 duplicate key error"), "", Mongo(11000))
  }

  /** Mongoose's `ValidationError`: no `statusCode`, no `errorCode`, no
      numeric `code`. */
  function ValidationFailure(): (err: AppError)
    ensures err.kind == Plain && err.statusCode == 0 && err.errorCode == ""
  {
    AppError(0, "", Some("Validation failed"), "", Plain)
  }

  /** The server's refusal of a negative `skip`: a database error with no
      `statusCode` and no `errorCode`. */
  function NegativeSkipError(): (err: AppError)
    ensures Render(err).status == 500 && Render(err).error.code == "INTERNAL_SERVER_ERROR"
  {
    AppError(0, "", Some("BSON field 'skip' value must be >= 0"), "", Mongo(51024))
  }

  // ---------------------------------------------------------------------
  // Queries

  /** `findOne(filter)`: the position of the first document, in collection
      order, that satisfies the filter. */
  function Find<T>(s: seq<T>, p: T -> bool): (r: Option<nat>)
    ensures r.Some? ==> r.value < |s| && p(s[r.value])
    ensures r.Some? ==> forall j | 0 <= j < r.value :: !p(s[j])
    ensures r.None? ==> forall j | 0 <= j < |s| :: !p(s[j])
  {
    if |s| == 0 then None
    else if p(s[0]) then Some(0)
    else match Find(s[1..], p)
      case None => None
      case Some(k) => Some(k + 1)
  }

  /** `countDocuments(filter)`, counted document by document; it agrees
      with the number of documents `find(filter)` returns. */
  function Count<T(!new)>(s: seq<T>, p: T -> bool): (n: nat)
    ensures n <= |s|
    ensures n == |Paging.Filter(s, p)|
    ensures n == 0 <==> forall x :: x in s ==> !p(x)
  {
    if |s| == 0 then 0
    else (if p(s[0]) then 1 else 0) + Count(s[1..], p)
  }

  // ---------------------------------------------------------------------
  // The unique indexes of the books collection

  /** `_id` and the two `unique: true` paths `shareId` and `contributeId`.
      Each index is separate: a share id may equal another book's
      contribute id. */
  predicate UniqueKeys(books: seq<MemoryBook>) {
    forall i, j | 0 <= i < j < |books| ::
      books[i].id != books[j].id && books[i].shareId != books[j].shareId && books[i].contributeId != books[j].contributeId
  }

  /** The filter `findByIdAndDelete(id)` keeps: the books with another id. */
  function IdIsNot(id: ObjectId): MemoryBook -> bool {
    (b: MemoryBook) => b.id != id
  }

  /** Inserting `b` would violate one of the unique indexes. */
  predicate Clashes(books: seq<MemoryBook>, b: MemoryBook) {
    exists i | 0 <= i < |books| ::
      books[i].id == b.id || books[i].shareId == b.shareId || books[i].contributeId == b.contributeId
  }

  lemma AppendKeepsUnique(books: seq<MemoryBook>, b: MemoryBook)
    requires UniqueKeys(books) && !Clashes(books, b)
    ensures UniqueKeys(books + [b])
  {
    var s := books + [b];
    forall i, j | 0 <= i < j < |s|
      ensures s[i].id != s[j].id && s[i].shareId != s[j].shareId && s[i].contributeId != s[j].contributeId
    {
      if j == |books| {
        assert s[i] == books[i] && s[j] == b;
      }
    }
  }

  /** The unique indexes make every key lookup unambiguous: the share id of a
      stored book finds that book and no other. */
  lemma ShareIdFindsItsBook(books: seq<MemoryBook>, i: nat)
    requires UniqueKeys(books) && i < |books|
    ensures Find(books, (b: MemoryBook) => b.shareId == books[i].shareId) == Some(i)
  {
  }

  /** Removing books keeps the unique indexes satisfied. */
  lemma {:induction false} FilterKeepsUnique(books: seq<MemoryBook>, p: MemoryBook -> bool)
    requires UniqueKeys(books)
    ensures UniqueKeys(Paging.Filter(books, p))
  {
    if |books| > 0 {
      var rest := books[1..];
      assert UniqueKeys(rest) by {
        forall i, j | 0 <= i < j < |rest|
          ensures rest[i].id != rest[j].id && rest[i].shareId != rest[j].shareId && rest[i].contributeId != rest[j].contributeId
        {
          assert rest[i] == books[i + 1] && rest[j] == books[j + 1];
        }
      }
      FilterKeepsUnique(rest, p);
      var tail := Paging.Filter(rest, p);
      if p(books[0]) {
        assert Paging.Filter(books, p) == [books[0]] + tail;
        forall j | 0 <= j < |tail|
          ensures tail[j].id != books[0].id && tail[j].shareId != books[0].shareId && tail[j].contributeId != books[0].contributeId
        {
          assert tail[j] in rest;
          var m :| 0 <= m < |rest| && rest[m] == tail[j];
          assert books[m + 1] == tail[j];
        }
        var s := [books[0]] + tail;
        forall i, j | 0 <= i < j < |s|
          ensures s[i].id != s[j].id && s[i].shareId != s[j].shareId && s[i].contributeId != s[j].contributeId
        {
          if i > 0 {
            assert s[i] == tail[i - 1] && s[j] == tail[j - 1];
          } else {
            assert s[j] == tail[j - 1];
          }
        }
      }
    }
  }

  lemma FilterKeepsConsistent(users: seq<User>, books: seq<MemoryBook>, contributions: seq<Contribution>, p: MemoryBook -> bool)
    requires Consistent(users, books, contributions)
    ensures Consistent(users, Paging.Filter(books, p), contributions)
  {
    FilterKeepsUnique(books, p);
    var kept := Paging.Filter(books, p);
    forall k | 0 <= k < |kept| ensures WellFormedBook(kept[k]) && kept[k].shareId != kept[k].contributeId {
      assert kept[k] in books;
    }
  }

  /** Predicate form of the invariants the store keeps. */
  ghost predicate Consistent(users: seq<User>, books: seq<MemoryBook>, contributions: seq<Contribution>) {
    UniqueKeys(books)
    && (forall k | 0 <= k < |books| :: WellFormedBook(books[k]) && books[k].shareId != books[k].contributeId)
    && (forall k | 0 <= k < |contributions| :: WellFormedContribution(contributions[k]))
    && (forall i, j | 0 <= i < j < |contributions| :: contributions[i].id != contributions[j].id)
    && (forall i, j | 0 <= i < j < |users| :: users[i].email != users[j].email)
  }

  class Database {
    var users: seq<User>
    var books: seq<MemoryBook>
    var contributions: seq<Contribution>

    ghost predicate Valid()
      reads this
    {
      Consistent(users, books, contributions)
    }

    constructor ()
      ensures Valid() && users == [] && books == [] && contributions == []
    {
      users, books, contributions := [], [], [];
    }

    /** `save()` of a new book: the write fails with E11000 when a unique
        index would be violated, and otherwise appends the book. */
    method InsertBook(b: MemoryBook) returns (err: Option<AppError>)
      requires Valid() && WellFormedBook(b) && b.shareId != b.contributeId
      modifies this
      ensures Valid()
      ensures err.Some? <==> Clashes(old(books), b)
      ensures err.Some? ==> err.value == DuplicateKeyError()
      ensures books == if err.Some? then old(books) else old(books) + [b]
      ensures users == old(users) && contributions == old(contributions)
    {
      var k := 0;
      while k < |books|
        invariant 0 <= k <= |books|
        invariant forall i | 0 <= i < k ::
          books[i].id != b.id && books[i].shareId != b.shareId && books[i].contributeId != b.contributeId
      {
        if books[k].id == b.id || books[k].shareId == b.shareId || books[k].contributeId == b.contributeId {
          return Some(DuplicateKeyError());
        }
        k := k + 1;
      }
      AppendKeepsUnique(books, b);
      books := books + [b];
      err := None;
    }

    /** `save()` of a loaded book: the document at position `i` is replaced.
        Its `_id`, share id and contribute id stay as they were. */
    method ReplaceBook(i: nat, b: MemoryBook)
      requires Valid() && i < |books| && WellFormedBook(b)
      requires b.id == books[i].id && b.shareId == books[i].shareId && b.contributeId == books[i].contributeId
      modifies this
      ensures Valid()
      ensures books == old(books)[i := b]
      ensures users == old(users) && contributions == old(contributions)
    {
      books := books[i := b];
    }

    /** `findByIdAndDelete(id)`: every book but the one with that id stays. */
    method DeleteBook(id: ObjectId)
      requires Valid()
      modifies this
      ensures Valid()
      ensures books == Paging.Filter(old(books), IdIsNot(id))
      ensures users == old(users) && contributions == old(contributions)
    {
      FilterKeepsConsistent(users, books, contributions, IdIsNot(id));
      books := Paging.Filter(books, IdIsNot(id));
    }

    /** `save()` of a new contribution: E11000 on a repeated `_id`, otherwise
        appended. */
    method InsertContribution(c: Contribution) returns (err: Option<AppError>)
      requires Valid() && WellFormedContribution(c)
      modifies this
      ensures Valid()
      ensures err.Some? <==> exists i | 0 <= i < |old(contributions)| :: old(contributions)[i].id == c.id
      ensures err.Some? ==> err.value == DuplicateKeyError()
      ensures contributions == if err.Some? then old(contributions) else old(contributions) + [c]
      ensures users == old(users) && books == old(books)
    {
      var k := 0;
      while k < |contributions|
        invariant 0 <= k <= |contributions|
        invariant forall i | 0 <= i < k :: contributions[i].id != c.id
      {
        if contributions[k].id == c.id {
          return Some(DuplicateKeyError());
        }
        k := k + 1;
      }
      contributions := contributions + [c];
      err := None;
    }

    /** `save()` of a new user, whose email no stored user has. */
    method InsertUser(u: User)
      requires Valid() && forall i | 0 <= i < |users| :: users[i].email != u.email
      modifies this
      ensures Valid()
      ensures users == old(users) + [u]
      ensures books == old(books) && contributions == old(contributions)
    {
      users := users + [u];
    }
  }
}
