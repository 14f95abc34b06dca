/** The memory-book handlers: owner-only listing, the owner-gated get,
    update and delete, the two capability lookups by share id and contribute
    id, and create with its one retry on a duplicate key. The caller is an
    input of every handler but the listing, which checks for it. */
module MemoryBookController {
  import opened Common
  import opened ErrorHandler
  import Paging
  import PublicId
  import opened IdGenerator
  import opened MemoryBookSchema
  import opened ContributionSchema
  import opened Store

  // ---------------------------------------------------------------------
  // extractPublicId, with the guard against local paths

  /** This controller's `extractPublicId`: only an address starting with
      `http` is searched for a Cloudinary public id. */
  function ExtractPublicIdGuarded(url: string): (r: Option<string>)
    ensures r.Some? ==> StartsWith(url, "http") && r == PublicId.ExtractPublicId(url) && r.value != ""
    ensures StartsWith(url, "http") ==> r == PublicId.ExtractPublicId(url)
  {
    if StartsWith(url, "http") then PublicId.ExtractPublicId(url) else None
  }

  /** Local image paths, `/api/images/<filename>`, never
      name a Cloudinary image. */
  lemma LegacyPathHasNoId(filename: string)
    ensures ExtractPublicIdGuarded("/api/images/" + filename) == None
  {
    var url := "/api/images/" + filename;
    assert url[0] == '/';
  }

  const DemoHost: string := "https://res.cloudinary.com/demo/image"

  lemma DemoHostWithoutUpload(rest: string)
    ensures PublicId.NoUploadBefore(DemoHost + rest, |DemoHost|)
    ensures StartsWith(DemoHost + rest, "http")
  {
    PublicId.HostWithoutUpload(DemoHost, rest);
    assert (DemoHost + rest)[..4] == DemoHost[..4];
  }

  /** Both Cloudinary delivery addresses, with and without the version
      segment, give the public id without version and extension. */
  lemma DemoAddresses()
    ensures ExtractPublicIdGuarded(DemoHost + "/upload/v123/remi/abc.jpg") == Some("remi/abc")
    ensures ExtractPublicIdGuarded(DemoHost + "/upload/remi/abc.jpg") == Some("remi/abc")
  {
    DemoHostWithoutUpload("/upload/v123/remi/abc.jpg");
    DemoHostWithoutUpload("/upload/remi/abc.jpg");
    PublicId.CloudinaryExamples(DemoHost);
  }

  // ---------------------------------------------------------------------
  // Response shapes

  /** `transformMemoryBook`: every stored field but the owner. */
  datatype BookView = BookView(
    id: ObjectId, name: string, bookType: BookType, pages: seq<Page>,
    createdAt: Time, updatedAt: Time, shareId: string, contributeId: string)

  function FullView(b: MemoryBook): BookView {
    BookView(b.id, b.name, b.bookType, b.pages, b.createdAt, b.updatedAt, b.shareId, b.contributeId)
  }

  /** An item of the listing: the full view without `updatedAt`. */
  datatype ListItem = ListItem(
    id: ObjectId, name: string, bookType: BookType, pages: seq<Page>,
    createdAt: Time, shareId: string, contributeId: string)

  function ListItemOf(b: MemoryBook): ListItem {
    ListItem(b.id, b.name, b.bookType, b.pages, b.createdAt, b.shareId, b.contributeId)
  }

  datatype ListPage = ListPage(data: seq<ListItem>, total: nat, limit: int, offset: int)

  /** What the contribute link shows: the book's metadata and no more. */
  datatype ContributeInfo = ContributeInfo(id: ObjectId, name: string, bookType: BookType, contributeId: string)

  // ---------------------------------------------------------------------
  // Errors

  function Unauthorized(): AppError {
    Raise(401, "UNAUTHORIZED", "Unauthorized")
  }

  /** One error for "no such book" and "not your book". */
  function BookNotFound(): AppError {
    Raise(404, "MEMORY_BOOK_NOT_FOUND", "Không tìm thấy memory book hoặc không có quyền truy cập")
  }

  function ShareNotFound(): AppError {
    Raise(404, "SHARE_NOT_FOUND", "Không tìm thấy memory book với share ID này")
  }

  function ContributeNotFound(): AppError {
    Raise(404, "CONTRIBUTE_NOT_FOUND", "Không tìm thấy memory book với contribute ID này")
  }

  function MissingNameOrType(): AppError {
    Raise(400, "VALIDATION_ERROR", "Name and type are required")
  }

  // ---------------------------------------------------------------------
  // getAllMemoryBooks

  function CreatedAt(b: MemoryBook): Time { b.createdAt }

  function OwnerIs(owner: ObjectId): MemoryBook -> bool {
    (b: MemoryBook) => b.userId == owner
  }

  /** The caller's books, newest first. */
  function OwnedNewestFirst(books: seq<MemoryBook>, owner: ObjectId): seq<MemoryBook> {
    Paging.SortDesc(Paging.Filter(books, OwnerIs(owner)), CreatedAt)
  }

  function Items(books: seq<MemoryBook>): (r: seq<ListItem>)
    ensures |r| == |books| && forall k | 0 <= k < |books| :: r[k] == ListItemOf(books[k])
  {
    seq(|books|, k requires 0 <= k < |books| => ListItemOf(books[k]))
  }

  /** `getAllMemoryBooks`: `limit` and `offset` fall back to 20 and 0; no
      caller is 401 UNAUTHORIZED; a negative offset is refused by the
      database; otherwise the caller's books, newest first, cut to the
      window, with the count of all the caller's books. */
  function ListMemoryBooks(books: seq<MemoryBook>, user: Option<User>, limitQ: Option<string>, offsetQ: Option<string>): (r: Reply<ListPage>)
    ensures user.None? ==> r == Next(Unauthorized())
    ensures user.Some? && Paging.QueryInt(offsetQ, 0) < 0 ==> r == Next(NegativeSkipError())
    ensures r.Send? <==> user.Some? && Paging.QueryInt(offsetQ, 0) >= 0
    ensures r.Send? ==> (r.status == 200
      && r.body.limit == Paging.QueryInt(limitQ, 20) && r.body.offset == Paging.QueryInt(offsetQ, 0)
      && r.body.total == Count(books, OwnerIs(user.value.id)))
  {
    var limit := Paging.QueryInt(limitQ, 20);
    var offset := Paging.QueryInt(offsetQ, 0);
    if user.None? then Next(Unauthorized())
    else if offset < 0 then Next(NegativeSkipError())
    else
      var owned := OwnedNewestFirst(books, user.value.id);
      Send(200, ListPage(Items(Paging.Window(owned, offset, Paging.Abs(limit))), Count(books, OwnerIs(user.value.id)), limit, offset))
  }

  /** The books a listing is cut from: exactly the caller's, newest first,
      as many as the count says. */
  lemma OwnedNewestFirstSpec(books: seq<MemoryBook>, owner: ObjectId)
    ensures Paging.SortedDesc(OwnedNewestFirst(books, owner), CreatedAt)
    ensures forall b :: b in OwnedNewestFirst(books, owner) <==> b in books && b.userId == owner
    ensures |OwnedNewestFirst(books, owner)| == Count(books, OwnerIs(owner))
  {
    Paging.SortDescSorted(Paging.Filter(books, OwnerIs(owner)), CreatedAt);
  }

  /** The listing shows exactly the slice [offset, offset + |limit|) of the
      caller's books, newest first, and `total` counts all of them. */
  lemma ListingIsOwnedWindow(books: seq<MemoryBook>, user: User, limitQ: Option<string>, offsetQ: Option<string>)
    requires Paging.QueryInt(offsetQ, 0) >= 0
    ensures var r := ListMemoryBooks(books, Some(user), limitQ, offsetQ);
      var owned := OwnedNewestFirst(books, user.id);
      r.Send?
      && r.body.data == Items(Paging.Window(owned, Paging.QueryInt(offsetQ, 0), Paging.Abs(Paging.QueryInt(limitQ, 20))))
      && r.body.total == |owned|
      && (forall i, j | 0 <= i < j < |r.body.data| :: r.body.data[i].createdAt >= r.body.data[j].createdAt)
  {
    var owned := OwnedNewestFirst(books, user.id);
    var w := Paging.Window(owned, Paging.QueryInt(offsetQ, 0), Paging.Abs(Paging.QueryInt(limitQ, 20)));
    OwnedWindowSorted(books, user.id, Paging.QueryInt(offsetQ, 0), Paging.Abs(Paging.QueryInt(limitQ, 20)));
    SortedItems(w);
    assert |owned| == Count(books, OwnerIs(user.id)) by {
      Paging.SortDescSorted(Paging.Filter(books, OwnerIs(user.id)), CreatedAt);
    }
  }

  /** A window of the caller's books is sorted newest first. */
  lemma OwnedWindowSorted(books: seq<MemoryBook>, owner: ObjectId, offset: nat, limit: nat)
    ensures Paging.SortedDesc(Paging.Window(OwnedNewestFirst(books, owner), offset, limit), CreatedAt)
  {
    Paging.SortDescSorted(Paging.Filter(books, OwnerIs(owner)), CreatedAt);
    Paging.WindowSorted(OwnedNewestFirst(books, owner), offset, limit, CreatedAt);
  }

  /** The items of books sorted newest first are in the same order. */
  lemma SortedItems(w: seq<MemoryBook>)
    requires Paging.SortedDesc(w, CreatedAt)
    ensures forall i, j | 0 <= i < j < |Items(w)| :: Items(w)[i].createdAt >= Items(w)[j].createdAt
  {
    var data := Items(w);
    forall i, j | 0 <= i < j < |data| ensures data[i].createdAt >= data[j].createdAt {
      assert CreatedAt(w[i]) >= CreatedAt(w[j]);
    }
  }

  // ---------------------------------------------------------------------
  // getMemoryBookById, getMemoryBookByShareId, getMemoryBookByContributeId

  function OwnedBook(id: ObjectId, owner: ObjectId): MemoryBook -> bool {
    (b: MemoryBook) => b.id == id && b.userId == owner
  }

  /** `getMemoryBookById`: the caller's book with that id, in full, or
      MEMORY_BOOK_NOT_FOUND. */
  function GetMemoryBookById(books: seq<MemoryBook>, id: ObjectId, caller: User): (r: Reply<BookView>)
    ensures r.Next? <==> forall k | 0 <= k < |books| :: !(books[k].id == id && books[k].userId == caller.id)
    ensures r.Next? ==> r.err == BookNotFound()
    ensures r.Send? ==> r.status == 200 && exists k | 0 <= k < |books| ::
      books[k].id == id && books[k].userId == caller.id && r.body == FullView(books[k])
  {
    match Find(books, OwnedBook(id, caller.id))
    case None => Next(BookNotFound())
    case Some(k) => Send(200, FullView(books[k]))
  }

  /** A book of someone else reads exactly as one that does not exist. */
  lemma ForeignBookLooksMissing(books: seq<MemoryBook>, id: ObjectId, caller: User)
    requires forall k | 0 <= k < |books| :: books[k].id == id ==> books[k].userId != caller.id
    ensures GetMemoryBookById(books, id, caller) == GetMemoryBookById([], id, caller)
  {
  }

  /** `getMemoryBookByShareId`: anyone holding the share id sees the whole
      book, pages included. */
  function GetMemoryBookByShareId(books: seq<MemoryBook>, shareId: string): (r: Reply<BookView>)
    ensures r.Next? <==> forall k | 0 <= k < |books| :: books[k].shareId != shareId
    ensures r.Next? ==> r.err == ShareNotFound()
    ensures r.Send? ==> r.status == 200 && exists k | 0 <= k < |books| ::
      books[k].shareId == shareId && r.body == FullView(books[k]) && r.body.pages == books[k].pages
  {
    match Find(books, (b: MemoryBook) => b.shareId == shareId)
    case None => Next(ShareNotFound())
    case Some(k) => Send(200, FullView(books[k]))
  }

  /** `getMemoryBookByContributeId`: anyone holding the contribute id sees
      the id, name, type and contribute id of the book. */
  function GetMemoryBookByContributeId(books: seq<MemoryBook>, contributeId: string): (r: Reply<ContributeInfo>)
    ensures r.Next? <==> forall k | 0 <= k < |books| :: books[k].contributeId != contributeId
    ensures r.Next? ==> r.err == ContributeNotFound()
    ensures r.Send? ==> r.status == 200 && exists k | 0 <= k < |books| ::
      books[k].contributeId == contributeId
      && r.body == ContributeInfo(books[k].id, books[k].name, books[k].bookType, books[k].contributeId)
  {
    match Find(books, (b: MemoryBook) => b.contributeId == contributeId)
    case None => Next(ContributeNotFound())
    case Some(k) => Send(200, ContributeInfo(books[k].id, books[k].name, books[k].bookType, books[k].contributeId))
  }

  /** The contribute link reveals neither pages nor the share id nor the
      owner: books that differ only in those give the same answer. */
  lemma ContributeViewHidesContent(books: seq<MemoryBook>, i: nat, pages: seq<Page>, shareId: string, owner: ObjectId, t0: Time, t1: Time)
    requires i < |books|
    ensures var other := books[i := books[i].(pages := pages, shareId := shareId, userId := owner, createdAt := t0, updatedAt := t1)];
      GetMemoryBookByContributeId(other, books[i].contributeId) == GetMemoryBookByContributeId(books, books[i].contributeId)
  {
    var other := books[i := books[i].(pages := pages, shareId := shareId, userId := owner, createdAt := t0, updatedAt := t1)];
    var p := (b: MemoryBook) => b.contributeId == books[i].contributeId;
    FindSameKeys(books, other, p);
  }

  /** Two collections whose books agree on a filter find the same position. */
  lemma {:induction false} FindSameKeys(s: seq<MemoryBook>, t: seq<MemoryBook>, p: MemoryBook -> bool)
    requires |s| == |t| && forall k | 0 <= k < |s| :: p(s[k]) == p(t[k])
    ensures Find(s, p) == Find(t, p)
  {
    if |s| > 0 {
      FindSameKeys(s[1..], t[1..], p);
    }
  }

  // ---------------------------------------------------------------------
  // createMemoryBook

  /** One `new MemoryBook(...).save()`: the validation error, the duplicate
      key error, or the stored book. */
  datatype Attempt = Invalid | Duplicate | Stored(book: MemoryBook)

  function TryCreate(books: seq<MemoryBook>, caller: User, name: string, bookType: string, ids: DistinctIds, id: ObjectId, now: Time): (a: Attempt)
    ensures a.Stored? <==> (NewBook(id, caller.id, name, bookType, ids.shareId, ids.contributeId, now).Some?
      && !Clashes(books, NewBook(id, caller.id, name, bookType, ids.shareId, ids.contributeId, now).value))
    ensures a.Stored? ==> Some(a.book) == NewBook(id, caller.id, name, bookType, ids.shareId, ids.contributeId, now)
    ensures a.Invalid? <==> NewBook(id, caller.id, name, bookType, ids.shareId, ids.contributeId, now).None?
  {
    match NewBook(id, caller.id, name, bookType, ids.shareId, ids.contributeId, now)
    case None => Invalid
    case Some(b) => if Clashes(books, b) then Duplicate else Stored(b)
  }

  /** `createMemoryBook`, as a function of the stored books: the reply and
      the books afterwards. `first` and `second` are the pairs the two
      `generatePublicIds()` calls return, `firstId` and `secondId` the
      ObjectIds of the two documents. */
  function CreateStep(
    books: seq<MemoryBook>, caller: User, name: Option<string>, bookType: Option<string>,
    first: DistinctIds, firstId: ObjectId, second: DistinctIds, secondId: ObjectId, now: Time): (r: (Reply<BookView>, seq<MemoryBook>))
    // a falsy name or type is refused before anything else
    ensures !Truthy(name) || !Truthy(bookType) ==> r == (Next(MissingNameOrType()), books)
    // every failure leaves the books as they were
    ensures r.0.Next? ==> r.1 == books
    // a success adds exactly one book: the caller's, with no pages and two distinct keys
    ensures r.0.Send? ==> (r.0.status == 201 && |r.1| == |books| + 1 && r.1[..|books|] == books
      && var b := r.1[|books|];
      r.0.body == FullView(b) && b.userId == caller.id && b.pages == [] && b.shareId != b.contributeId
      && b.name == name.value && BookTypeName(b.bookType) == bookType.value
      && b.createdAt == now && b.updatedAt == now
      && ((b.id, b.shareId, b.contributeId) == (firstId, first.shareId, first.contributeId)
          || (b.id, b.shareId, b.contributeId) == (secondId, second.shareId, second.contributeId)))
    // a type outside the enumeration is the schema's validation error
    ensures Truthy(name) && Truthy(bookType) && ParseBookType(bookType.value).None? ==> r == (Next(ValidationFailure()), books)
    // the second pair is used only after the first clashed, and a second clash is passed on
    ensures Truthy(name) && Truthy(bookType) ==>
      match TryCreate(books, caller, name.value, bookType.value, first, firstId, now)
      case Stored(b) => r == (Send(201, FullView(b)), books + [b])
      case Invalid => r == (Next(ValidationFailure()), books)
      case Duplicate =>
        match TryCreate(books, caller, name.value, bookType.value, second, secondId, now)
        case Stored(b) => r == (Send(201, FullView(b)), books + [b])
        case Invalid => r == (Next(ValidationFailure()), books)
        case Duplicate => r == (Next(DuplicateKeyError()), books)
  {
    if !Truthy(name) || !Truthy(bookType) then (Next(MissingNameOrType()), books)
    else
      match TryCreate(books, caller, name.value, bookType.value, first, firstId, now)
      case Stored(b) => (Send(201, FullView(b)), books + [b])
      case Invalid => (Next(ValidationFailure()), books)
      case Duplicate =>
        match TryCreate(books, caller, name.value, bookType.value, second, secondId, now)
        case Stored(b) => (Send(201, FullView(b)), books + [b])
        case Invalid => (Next(ValidationFailure()), books)
        case Duplicate => (Next(DuplicateKeyError()), books)
  }

  /** A second duplicate key surfaces as a 500: there is no third attempt. */
  lemma SecondDuplicateIsServerError(
    books: seq<MemoryBook>, caller: User, name: Option<string>, bookType: Option<string>,
    first: DistinctIds, firstId: ObjectId, second: DistinctIds, secondId: ObjectId, now: Time)
    requires Truthy(name) && Truthy(bookType)
    requires TryCreate(books, caller, name.value, bookType.value, first, firstId, now).Duplicate?
    requires TryCreate(books, caller, name.value, bookType.value, second, secondId, now).Duplicate?
    ensures var r := CreateStep(books, caller, name, bookType, first, firstId, second, secondId, now);
      r.1 == books && r.0.Next? && Render(r.0.err).status == 500 && Render(r.0.err).error.code == "INTERNAL_SERVER_ERROR"
  {
  }

  /** The handler over the database: validate, save, and on E11000 save once
      more with the second pair of ids. */
  method CreateMemoryBook(
    db: Database, caller: User, name: Option<string>, bookType: Option<string>,
    first: DistinctIds, firstId: ObjectId, second: DistinctIds, secondId: ObjectId, now: Time) returns (reply: Reply<BookView>)
    requires db.Valid()
    modifies db
    ensures db.Valid()
    ensures (reply, db.books) == CreateStep(old(db.books), caller, name, bookType, first, firstId, second, secondId, now)
    ensures db.users == old(db.users) && db.contributions == old(db.contributions)
  {
    if !Truthy(name) || !Truthy(bookType) {
      return Next(MissingNameOrType());
    }
    var book := NewBook(firstId, caller.id, name.value, bookType.value, first.shareId, first.contributeId, now);
    if book.None? {
      return Next(ValidationFailure());
    }
    var err := db.InsertBook(book.value);
    if err.None? {
      return Send(201, FullView(book.value));
    }
    // the only error the save raises here is E11000: retry once
    var retry := NewBook(secondId, caller.id, name.value, bookType.value, second.shareId, second.contributeId, now);
    if retry.None? {
      return Next(ValidationFailure());
    }
    var retryErr := db.InsertBook(retry.value);
    if retryErr.None? {
      return Send(201, FullView(retry.value));
    }
    reply := Next(retryErr.value);
  }

  // ---------------------------------------------------------------------
  // updateMemoryBook

  /** A field of the update's JSON body: left out, an explicit `null`, or a
      value. Only a left-out field escapes the `!== undefined` tests. */
  datatype Field<T> = Absent | Null | Given(value: T)

  /** The book after the assignments `name`, `type` and `pages` that were
      not left out, or `None` when saving it fails validation: a `null` or
      empty name and a `null` or unlisted type fail `required` or `enum`. */
  function Updated(b: MemoryBook, name: Field<string>, bookType: Field<string>, pages: Field<seq<RawPage>>, now: Time): (r: Option<MemoryBook>)
    ensures r.Some? <==> ((name.Absent? || (name.Given? && name.value != ""))
      && (bookType.Absent? || (bookType.Given? && ParseBookType(bookType.value).Some?))
      && (!pages.Given? || CastPages(pages.value).Some?))
    ensures r.Some? ==> r.value.name == (if name.Given? then name.value else b.name)
    ensures r.Some? ==> (if bookType.Given? then BookTypeName(r.value.bookType) == bookType.value else r.value.bookType == b.bookType)
    ensures r.Some? ==> r.value.pages == (if pages.Given? then CastPages(pages.value).value else if pages.Null? then [] else b.pages)
    ensures r.Some? ==> r.value.updatedAt == now
    ensures r.Some? ==> r.value.(name := b.name, bookType := b.bookType, pages := b.pages, updatedAt := b.updatedAt) == b
  {
    var n := if name.Given? then name.value else b.name;
    var t := match bookType
      case Absent => Some(b.bookType)
      case Null => None
      case Given(v) => ParseBookType(v);
    var ps := match pages
      case Absent => Some(b.pages)
      case Null => Some([])
      case Given(raw) => CastPages(raw);
    if (name.Absent? || (name.Given? && name.value != "")) && t.Some? && ps.Some? then
      Some(Touch(b.(name := n, bookType := t.value, pages := ps.value), now))
    else None
  }

  /** `updateMemoryBook`, as a function of the stored books. */
  function UpdateStep(
    books: seq<MemoryBook>, id: ObjectId, caller: User,
    name: Field<string>, bookType: Field<string>, pages: Field<seq<RawPage>>, now: Time): (r: (Reply<BookView>, seq<MemoryBook>))
    ensures (forall k | 0 <= k < |books| :: !(books[k].id == id && books[k].userId == caller.id)) ==> r == (Next(BookNotFound()), books)
    ensures r.0.Next? ==> r.1 == books
    ensures r.0.Send? ==> r.0.status == 200 && exists k | 0 <= k < |books| ::
      books[k].id == id && books[k].userId == caller.id
      && Updated(books[k], name, bookType, pages, now).Some?
      && r.1 == books[k := Updated(books[k], name, bookType, pages, now).value]
      && r.0.body == FullView(r.1[k])
    // the caller's book with acceptable fields is saved and echoed; with
    // a field the schema refuses it is a validation failure
    ensures Find(books, OwnedBook(id, caller.id)).Some? ==>
      var k := Find(books, OwnedBook(id, caller.id)).value;
      match Updated(books[k], name, bookType, pages, now)
      case Some(b) => r == (Send(200, FullView(b)), books[k := b])
      case None => r == (Next(ValidationFailure()), books)
  {
    match Find(books, OwnedBook(id, caller.id))
    case None => (Next(BookNotFound()), books)
    case Some(k) =>
      match Updated(books[k], name, bookType, pages, now)
      case None => (Next(ValidationFailure()), books)
      case Some(b) => (Send(200, FullView(b)), books[k := b])
  }

  /** With unique ids, updating the caller's book `k` with acceptable
      fields replaces that book and no other, and replies with it. */
  lemma UpdateSucceeds(
    books: seq<MemoryBook>, k: nat, caller: User,
    name: Field<string>, bookType: Field<string>, pages: Field<seq<RawPage>>, now: Time)
    requires UniqueKeys(books) && k < |books| && books[k].userId == caller.id
    requires Updated(books[k], name, bookType, pages, now).Some?
    ensures var b := Updated(books[k], name, bookType, pages, now).value;
      UpdateStep(books, books[k].id, caller, name, bookType, pages, now) == (Send(200, FullView(b)), books[k := b])
  {
    var found := Find(books, OwnedBook(books[k].id, caller.id));
    assert OwnedBook(books[k].id, caller.id)(books[k]);
    assert found.Some? && found.value == k;
  }

  /** What an update never touches: the id, the owner, both capability keys,
      the creation time and every other book. */
  lemma UpdateKeepsIdentity(
    books: seq<MemoryBook>, id: ObjectId, caller: User,
    name: Field<string>, bookType: Field<string>, pages: Field<seq<RawPage>>, now: Time)
    ensures var r := UpdateStep(books, id, caller, name, bookType, pages, now);
      |r.1| == |books| && forall k | 0 <= k < |books| ::
        r.1[k].id == books[k].id && r.1[k].userId == books[k].userId
        && r.1[k].shareId == books[k].shareId && r.1[k].contributeId == books[k].contributeId
        && r.1[k].createdAt == books[k].createdAt
        && (r.1[k] != books[k] ==> books[k].id == id && books[k].userId == caller.id)
  {
    var r := UpdateStep(books, id, caller, name, bookType, pages, now);
    match Find(books, OwnedBook(id, caller.id))
    case None =>
    case Some(k) =>
      var u := Updated(books[k], name, bookType, pages, now);
      if u.Some? {
        assert r.1 == books[k := u.value];
        assert u.value.(name := books[k].name, bookType := books[k].bookType, pages := books[k].pages, updatedAt := books[k].updatedAt) == books[k];
      }
  }

  /** Sending back the pages a book was read with leaves its pages as they
      were; only `updatedAt` moves. */
  lemma UpdateWithOwnPages(b: MemoryBook, now: Time)
    requires WellFormedPages(b.pages)
    ensures Updated(b, Absent, Absent, Given(RawOfPages(b.pages)), now) == Some(b.(updatedAt := now))
  {
    CastRawPages(b.pages);
  }

  /** `{"name": null}` or `{"type": null}` is assigned, so the save fails
      validation and the client gets 500, whatever else the body holds. */
  lemma ExplicitNullFails(
    books: seq<MemoryBook>, k: nat, caller: User,
    name: Field<string>, bookType: Field<string>, pages: Field<seq<RawPage>>, now: Time)
    requires UniqueKeys(books) && k < |books| && books[k].userId == caller.id
    requires name.Null? || bookType.Null?
    ensures UpdateStep(books, books[k].id, caller, name, bookType, pages, now) == (Next(ValidationFailure()), books)
    ensures Render(ValidationFailure()).status == 500
  {
    var found := Find(books, OwnedBook(books[k].id, caller.id));
    assert OwnedBook(books[k].id, caller.id)(books[k]);
    assert found.Some? && found.value == k;
  }

  /** `{"pages": null}` leaves the book without pages. */
  lemma NullPagesEmpty(b: MemoryBook, now: Time)
    ensures Updated(b, Absent, Absent, Null, now) == Some(b.(pages := [], updatedAt := now))
  {
  }

  /** The handler over the database: load the caller's book, assign the given
      fields one by one, let the pre-save hook stamp it, save it. */
  method UpdateMemoryBook(
    db: Database, id: ObjectId, caller: User,
    name: Field<string>, bookType: Field<string>, pages: Field<seq<RawPage>>, now: Time) returns (reply: Reply<BookView>)
    requires db.Valid()
    modifies db
    ensures db.Valid()
    ensures (reply, db.books) == UpdateStep(old(db.books), id, caller, name, bookType, pages, now)
    ensures db.users == old(db.users) && db.contributions == old(db.contributions)
  {
    ghost var step := UpdateStep(db.books, id, caller, name, bookType, pages, now);
    var found := Find(db.books, OwnedBook(id, caller.id));
    if found.None? {
      assert step == (Next(BookNotFound()), db.books);
      return Next(BookNotFound());
    }
    var k := found.value;
    var book := db.books[k];
    var valid := true;
    match name {
      case Absent =>
      case Null => valid := false;
      case Given(n) => book := book.(name := n);
    }
    match bookType {
      case Absent =>
      case Null => valid := false;
      case Given(v) =>
        var t := ParseBookType(v);
        if t.Some? { book := book.(bookType := t.value); } else { valid := false; }
    }
    match pages {
      case Absent =>
      case Null => book := book.(pages := []);
      case Given(raw) =>
        var ps := CastPages(raw);
        if ps.Some? { book := book.(pages := ps.value); } else { valid := false; }
    }
    if !valid || book.name == "" {
      assert Updated(db.books[k], name, bookType, pages, now).None?;
      assert step == (Next(ValidationFailure()), db.books);
      return Next(ValidationFailure());
    }
    book := Touch(book, now);
    assert Updated(db.books[k], name, bookType, pages, now) == Some(book);
    assert step == (Send(200, FullView(book)), db.books[k := book]);
    db.ReplaceBook(k, book);
    reply := Send(200, FullView(book));
  }

  // ---------------------------------------------------------------------
  // deleteMemoryBook

  /** The non-empty photo URLs of some photos, in order. */
  function PhotoUrls(photos: seq<Photo>): (urls: seq<string>)
    ensures forall u | u in urls :: u != "" && exists k | 0 <= k < |photos| :: photos[k].url == u
    ensures forall k | 0 <= k < |photos| :: photos[k].url != "" ==> photos[k].url in urls
  {
    if |photos| == 0 then []
    else
      var last := photos[|photos| - 1];
      var init := PhotoUrls(photos[..|photos| - 1]);
      assert forall k | 0 <= k < |photos| - 1 :: photos[..|photos| - 1][k] == photos[k];
      if last.url != "" then init + [last.url] else init
  }

  /** The non-empty photo URLs of a book, page by page, photo by photo. */
  function PageUrls(pages: seq<Page>): (urls: seq<string>)
    ensures forall u | u in urls :: u != "" && exists i, k | 0 <= i < |pages| && 0 <= k < |pages[i].photos| :: pages[i].photos[k].url == u
    ensures forall i, k | 0 <= i < |pages| && 0 <= k < |pages[i].photos| :: pages[i].photos[k].url != "" ==> pages[i].photos[k].url in urls
  {
    if |pages| == 0 then []
    else
      var init := PageUrls(pages[..|pages| - 1]);
      assert forall i | 0 <= i < |pages| - 1 :: pages[..|pages| - 1][i] == pages[i];
      init + PhotoUrls(pages[|pages| - 1].photos)
  }

  /** The nested `forEach` that fills `imageUrls`. */
  method CollectImageUrls(pages: seq<Page>) returns (urls: seq<string>)
    ensures urls == PageUrls(pages)
  {
    urls := [];
    var i := 0;
    while i < |pages|
      invariant 0 <= i <= |pages|
      invariant urls == PageUrls(pages[..i])
    {
      var photos := pages[i].photos;
      var j := 0;
      while j < |photos|
        invariant 0 <= j <= |photos|
        invariant urls == PageUrls(pages[..i]) + PhotoUrls(photos[..j])
      {
        assert photos[..j + 1][..j] == photos[..j];
        if photos[j].url != "" {
          urls := urls + [photos[j].url];
        }
        j := j + 1;
      }
      assert photos[..j] == photos;
      assert pages[..i + 1][..i] == pages[..i];
      i := i + 1;
    }
    assert pages[..i] == pages;
  }

  /** The public ids `destroy` is called with: one for each URL that names a
      Cloudinary image, in order. */
  function DestroyTargets(urls: seq<string>): (ids: seq<string>)
    ensures |ids| <= |urls|
    ensures forall id | id in ids :: exists u | u in urls :: ExtractPublicIdGuarded(u) == Some(id)
    ensures forall u | u in urls && ExtractPublicIdGuarded(u).Some? :: ExtractPublicIdGuarded(u).value in ids
  {
    if |urls| == 0 then []
    else
      var init := DestroyTargets(urls[..|urls| - 1]);
      assert forall u | u in urls[..|urls| - 1] :: u in urls;
      assert forall u | u in urls :: u in urls[..|urls| - 1] || u == urls[|urls| - 1];
      match ExtractPublicIdGuarded(urls[|urls| - 1])
      case Some(id) => init + [id]
      case None => init
  }

  /** The URLs whose destroy call rejected, each logged and otherwise ignored. */
  function FailedUrls(urls: seq<string>, destroy: string -> DestroyOutcome): (failed: seq<string>)
    ensures forall u | u in failed :: u in urls && ExtractPublicIdGuarded(u).Some? && destroy(ExtractPublicIdGuarded(u).value).Rejected?
    ensures forall u | u in urls && ExtractPublicIdGuarded(u).Some? && destroy(ExtractPublicIdGuarded(u).value).Rejected? :: u in failed
  {
    if |urls| == 0 then []
    else
      var init := FailedUrls(urls[..|urls| - 1], destroy);
      assert forall u | u in urls[..|urls| - 1] :: u in urls;
      assert forall u | u in urls :: u in urls[..|urls| - 1] || u == urls[|urls| - 1];
      var u := urls[|urls| - 1];
      match ExtractPublicIdGuarded(u)
      case Some(id) => if destroy(id).Rejected? then init + [u] else init
      case None => init
  }

  /** The URLs of some photos: those of the first ones, then those of the
      rest. */
  lemma {:induction false} PhotoUrlsAppend(a: seq<Photo>, b: seq<Photo>)
    ensures PhotoUrls(a + b) == PhotoUrls(a) + PhotoUrls(b)
    decreases |b|
  {
    if |b| == 0 {
      assert a + b == a;
    } else {
      var b' := b[..|b| - 1];
      assert (a + b)[..|a + b| - 1] == a + b';
      assert (a + b)[|a + b| - 1] == b[|b| - 1];
      PhotoUrlsAppend(a, b');
    }
  }

  /** One photo contributes its URL exactly when it has one. */
  lemma PhotoUrlsSingle(p: Photo)
    ensures PhotoUrls([p]) == if p.url != "" then [p.url] else []
  {
    assert [p][..0] == [];
  }

  /** The URLs of some pages: those of the first ones, then those of the
      rest. */
  lemma {:induction false} PageUrlsAppend(a: seq<Page>, b: seq<Page>)
    ensures PageUrls(a + b) == PageUrls(a) + PageUrls(b)
    decreases |b|
  {
    if |b| == 0 {
      assert a + b == a;
    } else {
      var b' := b[..|b| - 1];
      assert (a + b)[..|a + b| - 1] == a + b';
      assert (a + b)[|a + b| - 1] == b[|b| - 1];
      PageUrlsSnoc(a + b);
      PageUrlsSnoc(b);
      PageUrlsAppend(a, b');
    }
  }

  /** The last page's URLs come after those of the pages before it. */
  lemma PageUrlsSnoc(pages: seq<Page>)
    requires |pages| > 0
    ensures PageUrls(pages) == PageUrls(pages[..|pages| - 1]) + PhotoUrls(pages[|pages| - 1].photos)
  {
  }

  /** One page contributes the URLs of its photos, in order. */
  lemma PageUrlsSingle(pg: Page)
    ensures PageUrls([pg]) == PhotoUrls(pg.photos)
  {
    assert [pg][..0] == [];
  }

  /** The destroy calls for some URLs: those for the first ones, then those
      for the rest. */
  lemma {:induction false} DestroyTargetsAppend(a: seq<string>, b: seq<string>)
    ensures DestroyTargets(a + b) == DestroyTargets(a) + DestroyTargets(b)
    decreases |b|
  {
    if |b| == 0 {
      assert a + b == a;
    } else {
      var b' := b[..|b| - 1];
      assert (a + b)[..|a + b| - 1] == a + b';
      assert (a + b)[|a + b| - 1] == b[|b| - 1];
      DestroyTargetsAppend(a, b');
    }
  }

  /** One URL gets one destroy call exactly when it names a public id. */
  lemma DestroyTargetsSingle(u: string)
    ensures DestroyTargets([u]) == if ExtractPublicIdGuarded(u).Some? then [ExtractPublicIdGuarded(u).value] else []
  {
    assert [u][..0] == [];
  }

  /** The failures among some URLs: those among the first ones, then those
      among the rest. */
  lemma {:induction false} FailedUrlsAppend(a: seq<string>, b: seq<string>, destroy: string -> DestroyOutcome)
    ensures FailedUrls(a + b, destroy) == FailedUrls(a, destroy) + FailedUrls(b, destroy)
    decreases |b|
  {
    if |b| == 0 {
      assert a + b == a;
    } else {
      var b' := b[..|b| - 1];
      assert (a + b)[..|a + b| - 1] == a + b';
      assert (a + b)[|a + b| - 1] == b[|b| - 1];
      FailedUrlsAppend(a, b', destroy);
    }
  }

  /** One URL is a failure exactly when it names a public id whose destroy
      call rejects. */
  lemma FailedUrlsSingle(u: string, destroy: string -> DestroyOutcome)
    ensures FailedUrls([u], destroy) ==
      if ExtractPublicIdGuarded(u).Some? && destroy(ExtractPublicIdGuarded(u).value).Rejected? then [u] else []
  {
    assert [u][..0] == [];
  }

  /** The number of photos on some pages. */
  function PhotoCount(pages: seq<Page>): nat {
    if |pages| == 0 then 0 else PhotoCount(pages[..|pages| - 1]) + |pages[|pages| - 1].photos|
  }

  /** Every photo URL names a Cloudinary image. */
  predicate AllOnCloudinary(pages: seq<Page>) {
    forall i, k | 0 <= i < |pages| && 0 <= k < |pages[i].photos| ::
      pages[i].photos[k].url != "" && ExtractPublicIdGuarded(pages[i].photos[k].url).Some?
  }

  /** When every URL names a public id, each gets its own destroy call. */
  lemma {:induction false} DestroyTargetsAll(urls: seq<string>)
    requires forall u | u in urls :: ExtractPublicIdGuarded(u).Some?
    ensures |DestroyTargets(urls)| == |urls|
  {
    if |urls| > 0 {
      assert forall u | u in urls[..|urls| - 1] :: u in urls;
      assert urls[|urls| - 1] in urls;
      DestroyTargetsAll(urls[..|urls| - 1]);
    }
  }

  /** Photos that all have a URL give one URL each. */
  lemma {:induction false} PhotoUrlsAll(photos: seq<Photo>)
    requires forall k | 0 <= k < |photos| :: photos[k].url != ""
    ensures |PhotoUrls(photos)| == |photos|
  {
    if |photos| > 0 {
      PhotoUrlsAll(photos[..|photos| - 1]);
    }
  }

  /** Deleting a book whose photos are all on Cloudinary makes one destroy
      call per photo: four for two pages of two photos. */
  lemma {:induction false} EveryPhotoDestroyed(pages: seq<Page>)
    requires AllOnCloudinary(pages)
    ensures |DestroyTargets(PageUrls(pages))| == PhotoCount(pages)
  {
    DestroyTargetsAll(PageUrls(pages));
    PageUrlsCount(pages);
  }

  /** Pages whose photos all have URLs give one URL per photo. */
  lemma {:induction false} PageUrlsCount(pages: seq<Page>)
    requires AllOnCloudinary(pages)
    ensures |PageUrls(pages)| == PhotoCount(pages)
  {
    if |pages| > 0 {
      var init := pages[..|pages| - 1];
      assert forall i | 0 <= i < |init| :: init[i] == pages[i];
      PageUrlsCount(init);
      PhotoUrlsAll(pages[|pages| - 1].photos);
    }
  }

  /** Local image paths are never sent to Cloudinary. */
  lemma {:induction false} LegacyUrlsNotDestroyed(urls: seq<string>)
    requires forall u | u in urls :: StartsWith(u, "/api/images/")
    ensures DestroyTargets(urls) == []
  {
    if |urls| > 0 {
      assert forall u | u in urls[..|urls| - 1] :: u in urls;
      LegacyUrlsNotDestroyed(urls[..|urls| - 1]);
      var u := urls[|urls| - 1];
      assert u in urls;
      assert u == "/api/images/" + u[|"/api/images/"|..];
      LegacyPathHasNoId(u[|"/api/images/"|..]);
    }
  }

  /** The `Promise.all` over the image URLs: each URL with a public id gets
      one destroy call; a rejection is logged and swallowed. */
  method DestroyImages(urls: seq<string>, destroy: string -> DestroyOutcome) returns (destroyed: seq<string>, failures: seq<string>)
    ensures destroyed == DestroyTargets(urls)
    ensures failures == FailedUrls(urls, destroy)
  {
    destroyed, failures := [], [];
    var k := 0;
    while k < |urls|
      invariant 0 <= k <= |urls|
      invariant destroyed == DestroyTargets(urls[..k])
      invariant failures == FailedUrls(urls[..k], destroy)
    {
      assert urls[..k + 1][..k] == urls[..k];
      var publicId := ExtractPublicIdGuarded(urls[k]);
      if publicId.Some? {
        destroyed := destroyed + [publicId.value];
        if destroy(publicId.value).Rejected? {
          failures := failures + [urls[k]];
        }
      }
      k := k + 1;
    }
    assert urls[..k] == urls;
  }

  /** `deleteMemoryBook`: the caller's book or MEMORY_BOOK_NOT_FOUND; then
      one destroy call per photo URL with a public id, whatever each call
      does, the removal of the book, and 200. Contributions are not
      deleted. `destroyed` lists the public ids passed to `destroy` and
      `failures` the URLs whose call was rejected and logged. */
  method DeleteMemoryBook(db: Database, id: ObjectId, caller: User, destroy: string -> DestroyOutcome)
    returns (reply: Reply<Message>, destroyed: seq<string>, failures: seq<string>)
    requires db.Valid()
    modifies db
    ensures db.Valid()
    ensures Find(old(db.books), OwnedBook(id, caller.id)).None? ==>
      reply == Next(BookNotFound()) && db.books == old(db.books) && destroyed == [] && failures == []
    ensures Find(old(db.books), OwnedBook(id, caller.id)).Some? ==>
      var book := old(db.books)[Find(old(db.books), OwnedBook(id, caller.id)).value];
      reply == Send(200, Message("Memory book deleted successfully"))
      && destroyed == DestroyTargets(PageUrls(book.pages))
      && failures == FailedUrls(PageUrls(book.pages), destroy)
      && db.books == Paging.Filter(old(db.books), IdIsNot(id))
    ensures db.users == old(db.users) && db.contributions == old(db.contributions)
  {
    destroyed, failures := [], [];
    var found := Find(db.books, OwnedBook(id, caller.id));
    if found.None? {
      return Next(BookNotFound()), destroyed, failures;
    }
    var book := db.books[found.value];
    var imageUrls := CollectImageUrls(book.pages);
    if |imageUrls| > 0 {
      destroyed, failures := DestroyImages(imageUrls, destroy);
    }
    db.DeleteBook(id);
    reply := Send(200, Message("Memory book deleted successfully"));
  }

  /** With unique ids, deleting a book removes that one book and keeps every
      other in its place. */
  lemma DeleteRemovesOnlyThatBook(books: seq<MemoryBook>, i: nat)
    requires UniqueKeys(books) && i < |books|
    ensures Paging.Filter(books, IdIsNot(books[i].id)) == books[..i] + books[i + 1..]
  {
    var p := IdIsNot(books[i].id);
    var before, after := books[..i], books[i + 1..];
    assert books == before + [books[i]] + after;
    assert Paging.Filter([books[i]], p) == [] by {
      assert [books[i]][1..] == [];
    }
    OthersKept(books, i);
    calc {
      Paging.Filter(books, p);
      Paging.Filter(before + [books[i]] + after, p);
      { Paging.FilterAppend(before + [books[i]], after, p); }
      Paging.Filter(before + [books[i]], p) + Paging.Filter(after, p);
      { Paging.FilterAppend(before, [books[i]], p); }
      Paging.Filter(before, p) + Paging.Filter([books[i]], p) + Paging.Filter(after, p);
      before + [] + after;
      { assert before + [] == before; }
      before + after;
    }
  }

  /** The books before and after the deleted one all have other ids. */
  lemma OthersKept(books: seq<MemoryBook>, i: nat)
    requires UniqueKeys(books) && i < |books|
    ensures Paging.Filter(books[..i], IdIsNot(books[i].id)) == books[..i]
    ensures Paging.Filter(books[i + 1..], IdIsNot(books[i].id)) == books[i + 1..]
  {
    var p := IdIsNot(books[i].id);
    forall x | x in books[..i] ensures p(x) {
      var k :| 0 <= k < i && books[k] == x;
    }
    forall x | x in books[i + 1..] ensures p(x) {
      var k :| 0 <= k < |books| - i - 1 && books[i + 1..][k] == x;
      assert books[i + 1 + k] == x;
    }
    Paging.FilterAll(books[..i], p);
    Paging.FilterAll(books[i + 1..], p);
  }
}
