/** Contribution intake: the image filter of its upload middleware, the
    submission of up to ten photos to a book through its contribute link,
    and the newest-first listing of a book's contributions. */
module ContributionController {
  import opened Common
  import opened ErrorHandler
  import Paging
  import opened MemoryBookSchema
  import opened ContributionSchema
  import opened Store

  // ---------------------------------------------------------------------
  // fileFilter

  const NotAnImageLead: string := "Only image files"

  /** The error the filter hands to multer for a file that is not an image. */
  function NotAnImage(): (err: AppError)
    ensures err.message == Some(NotAnImageLead + " are allowed") && err.kind == Plain
  {
    AppError(0, "", Some(NotAnImageLead + " are allowed"), "", Plain)
  }

  /** `fileFilter`: every mime type under `image/` is accepted; anything
      else is refused with a plain error. */
  function FileFilter(mimetype: string): (r: Option<AppError>)
    ensures r.None? <==> StartsWith(mimetype, "image/")
    ensures r.Some? ==> r.value == NotAnImage()
  {
    if StartsWith(mimetype, "image/") then None else Some(NotAnImage())
  }

  // ---------------------------------------------------------------------
  // submitContributions

  /** A text field of the multipart body: missing, sent once, or sent
      several times (which multer collects into an array). */
  datatype FormField = Absent | Scalar(value: string) | List(values: seq<string>)

  /** `x ? (Array.isArray(x) ? x : [x]) : []`: an array is kept as it is,
      even when empty (an array is truthy); a single non-empty value
      becomes a one-element array; a missing or empty value gives none. */
  function Normalize(f: FormField): (r: seq<string>)
    ensures f.List? ==> r == f.values
    ensures !f.List? ==> |r| <= 1
    ensures f.Scalar? && f.value != "" ==> r == [f.value]
    ensures (f.Absent? || f == Scalar("")) ==> r == []
  {
    match f
    case Absent => []
    case Scalar(v) => if v != "" then [v] else []
    case List(vs) => vs
  }

  /** A value sent once reads the same as an array holding just that value. */
  lemma NormalizeScalarAsList(v: string)
    requires v != ""
    ensures Normalize(Scalar(v)) == Normalize(List([v]))
  {
  }

  /** What the handler reads of a stored upload. */
  datatype UploadedFile = UploadedFile(filename: string, mimetype: string)

  function SubmitBookNotFound(): AppError {
    Raise(404, "MEMORY_BOOK_NOT_FOUND", "Không tìm thấy memory book")
  }

  function NoFiles(): AppError {
    Raise(400, "VALIDATION_ERROR", "Vui lòng chọn ít nhất một ảnh")
  }

  function TooManyFiles(): AppError {
    Raise(400, "TOO_MANY_FILES", "Tối đa 10 ảnh mỗi lần đóng góp")
  }

  function NotesMismatch(): AppError {
    Raise(400, "VALIDATION_ERROR", "Số lượng notes phải khớp với số lượng ảnh")
  }

  function PromptsMismatch(): AppError {
    Raise(400, "VALIDATION_ERROR", "Số lượng prompts phải khớp với số lượng ảnh")
  }

  /** Some stored book has this id (`findById`, whoever owns it). */
  predicate BookExists(books: seq<MemoryBook>, id: ObjectId) {
    exists k | 0 <= k < |books| :: books[k].id == id
  }

  /** A positional list pairs with the files when it is empty or as long. */
  predicate Pairs(xs: seq<string>, n: nat) {
    |xs| == 0 || |xs| == n
  }

  /** The checks in the order the handler makes them; `None` lets the
      submission through. */
  function Validate(books: seq<MemoryBook>, id: ObjectId, files: Option<seq<UploadedFile>>, notes: seq<string>, prompts: seq<string>): (r: Option<AppError>)
    ensures !BookExists(books, id) ==> r == Some(SubmitBookNotFound())
    ensures BookExists(books, id) && (files.None? || |files.value| == 0) ==> r == Some(NoFiles())
    ensures BookExists(books, id) && files.Some? && |files.value| > 10 ==> r == Some(TooManyFiles())
    ensures BookExists(books, id) && files.Some? && 1 <= |files.value| <= 10 && !Pairs(notes, |files.value|) ==> r == Some(NotesMismatch())
    ensures (BookExists(books, id) && files.Some? && 1 <= |files.value| <= 10 && Pairs(notes, |files.value|)
      && !Pairs(prompts, |files.value|)) ==> r == Some(PromptsMismatch())
    ensures r.None? <==> (BookExists(books, id) && files.Some? && 1 <= |files.value| <= 10
      && Pairs(notes, |files.value|) && Pairs(prompts, |files.value|))
  {
    var found := Find(books, (b: MemoryBook) => b.id == id);
    assert found.Some? ==> books[found.value].id == id;
    if found.None? then Some(SubmitBookNotFound())
    else if files.None? || |files.value| == 0 then Some(NoFiles())
    else if |files.value| > 10 then Some(TooManyFiles())
    else if |notes| > 0 && |notes| != |files.value| then Some(NotesMismatch())
    else if |prompts| > 0 && |prompts| != |files.value| then Some(PromptsMismatch())
    else None
  }

  /** An unknown book is reported before anything about the files is. */
  lemma UnknownBookFirst(books: seq<MemoryBook>, id: ObjectId, files: Option<seq<UploadedFile>>, notes: seq<string>, prompts: seq<string>)
    requires forall k | 0 <= k < |books| :: books[k].id != id
    ensures Validate(books, id, files, notes, prompts) == Validate(books, id, None, [], [])
  {
  }

  /** `list[index] || ''`. */
  function At(xs: seq<string>, i: nat): (r: string)
    ensures i < |xs| ==> r == xs[i]
    ensures i >= |xs| ==> r == ""
  {
    if i < |xs| then xs[i] else ""
  }

  const ImagePrefix: string := "/api/images/"

  /** The document built for file `i`: the book's id, a fresh photo id, the
      local URL of the file, the note and prompt at the same position. `None`
      is a document that fails validation. */
  function Record(
    id: ObjectId, files: seq<UploadedFile>, notes: seq<string>, prompts: seq<string>,
    photoIdFor: nat -> PhotoId, recordIdFor: nat -> ObjectId, now: Time, i: nat): (r: Option<Contribution>)
    requires i < |files|
    ensures r.Some? <==> id != ""
    ensures r.Some? ==> r.value == Contribution(recordIdFor(i), id, photoIdFor(i), ImagePrefix + files[i].filename,
      At(notes, i), At(prompts, i), now)
    ensures r.Some? ==> WellFormedContribution(r.value)
  {
    var photoId: string := photoIdFor(i);
    assert photoId[0] == photoIdFor(i)[0];
    NewContribution(recordIdFor(i), id, photoId, ImagePrefix + files[i].filename, Some(At(notes, i)), Some(At(prompts, i)), Some(now), now)
  }

  function Records(
    id: ObjectId, files: seq<UploadedFile>, notes: seq<string>, prompts: seq<string>,
    photoIdFor: nat -> PhotoId, recordIdFor: nat -> ObjectId, now: Time): (rs: seq<Option<Contribution>>)
    ensures |rs| == |files| && forall i | 0 <= i < |files| :: rs[i] == Record(id, files, notes, prompts, photoIdFor, recordIdFor, now, i)
  {
    seq(|files|, i requires 0 <= i < |files| => Record(id, files, notes, prompts, photoIdFor, recordIdFor, now, i))
  }

  /** Every document that validates is well formed. */
  lemma RecordsWellFormed(
    id: ObjectId, files: seq<UploadedFile>, notes: seq<string>, prompts: seq<string>,
    photoIdFor: nat -> PhotoId, recordIdFor: nat -> ObjectId, now: Time)
    ensures var rs := Records(id, files, notes, prompts, photoIdFor, recordIdFor, now);
      forall i | 0 <= i < |rs| :: rs[i].Some? ==> WellFormedContribution(rs[i].value)
  {
  }

  /** The first error, if any. */
  function FirstError(e: Option<AppError>, f: AppError): Option<AppError> {
    if e.Some? then e else Some(f)
  }

  predicate IdTaken(log: seq<Contribution>, id: ObjectId) {
    exists i | 0 <= i < |log| :: log[i].id == id
  }

  /** Every `save()` of `Promise.all`, in order: the log afterwards and the
      first rejection. A failed save does not stop the others, and the saves
      that succeeded stay stored. */
  function SaveAll(log: seq<Contribution>, rs: seq<Option<Contribution>>): (r: (seq<Contribution>, Option<AppError>))
    ensures |log| <= |r.0| <= |log| + |rs| && r.0[..|log|] == log
    ensures forall k | |log| <= k < |r.0| :: Some(r.0[k]) in rs
  {
    if |rs| == 0 then (log, None)
    else
      var prev := SaveAll(log, rs[..|rs| - 1]);
      assert forall x | x in rs[..|rs| - 1] :: x in rs;
      SaveOne(prev, rs[|rs| - 1])
  }

  /** One `save()`: a document that fails validation or reuses a stored id
      is rejected and only the first rejection is kept; any other is
      appended. */
  function SaveOne(state: (seq<Contribution>, Option<AppError>), r: Option<Contribution>): (next: (seq<Contribution>, Option<AppError>))
    ensures r.None? ==> next == (state.0, FirstError(state.1, ValidationFailure()))
    ensures r.Some? && IdTaken(state.0, r.value.id) ==> next == (state.0, FirstError(state.1, DuplicateKeyError()))
    ensures r.Some? && !IdTaken(state.0, r.value.id) ==> next == (state.0 + [r.value], state.1)
  {
    if r.None? then (state.0, FirstError(state.1, ValidationFailure()))
    else if IdTaken(state.0, r.value.id) then (state.0, FirstError(state.1, DuplicateKeyError()))
    else (state.0 + [r.value], state.1)
  }

  /** `SaveAll` over one more document is one more `SaveOne`. */
  lemma SaveAllExtend(log: seq<Contribution>, rs: seq<Option<Contribution>>, i: nat)
    requires i < |rs|
    ensures SaveAll(log, rs[..i + 1]) == SaveOne(SaveAll(log, rs[..i]), rs[i])
  {
    assert rs[..i + 1][..i] == rs[..i];
  }

  /** Every document validates. */
  predicate AllPresent(rs: seq<Option<Contribution>>) {
    forall i | 0 <= i < |rs| :: rs[i].Some?
  }

  function Values(rs: seq<Option<Contribution>>): (cs: seq<Contribution>)
    requires AllPresent(rs)
    ensures |cs| == |rs| && forall i | 0 <= i < |rs| :: cs[i] == rs[i].value
  {
    seq(|rs|, i requires 0 <= i < |rs| => rs[i].value)
  }

  /** No id is taken twice: among the records, or by a record and the log. */
  predicate FreshIds(log: seq<Contribution>, rs: seq<Option<Contribution>>)
    requires AllPresent(rs)
  {
    (forall i | 0 <= i < |rs| :: !IdTaken(log, rs[i].value.id))
    && forall i, j | 0 <= i < j < |rs| :: rs[i].value.id != rs[j].value.id
  }

  /** When every document is valid and every id is fresh, every save goes
      through: the log gains exactly the records, in file order. */
  lemma {:induction false} SaveAllAppends(log: seq<Contribution>, rs: seq<Option<Contribution>>)
    requires AllPresent(rs)
    requires FreshIds(log, rs)
    ensures SaveAll(log, rs) == (log + Values(rs), None)
  {
    if |rs| > 0 {
      var init := rs[..|rs| - 1];
      FreshIdsPrefix(log, rs);
      SaveAllAppends(log, init);
      var prev := log + Values(init);
      var last := rs[|rs| - 1].value;
      LastIdFresh(log, rs);
      assert SaveAll(log, rs) == SaveOne((prev, None), Some(last));
      assert Values(rs) == Values(init) + [last];
      assert log + Values(rs) == prev + [last];
    } else {
      assert log + Values(rs) == log;
    }
  }

  /** Fresh ids stay fresh without the last record. */
  lemma FreshIdsPrefix(log: seq<Contribution>, rs: seq<Option<Contribution>>)
    requires |rs| > 0 && AllPresent(rs)
    requires FreshIds(log, rs)
    ensures AllPresent(rs[..|rs| - 1])
    ensures FreshIds(log, rs[..|rs| - 1])
  {
    var init := rs[..|rs| - 1];
    assert forall i | 0 <= i < |init| :: init[i] == rs[i];
  }

  /** The last record's id is taken neither in the log nor by the records
      before it. */
  lemma LastIdFresh(log: seq<Contribution>, rs: seq<Option<Contribution>>)
    requires |rs| > 0 && AllPresent(rs)
    requires FreshIds(log, rs)
    ensures !IdTaken(log + Values(rs[..|rs| - 1]), rs[|rs| - 1].value.id)
  {
    var init := rs[..|rs| - 1];
    var prev := log + Values(init);
    var last := rs[|rs| - 1].value;
    forall i | 0 <= i < |prev| ensures prev[i].id != last.id {
      if i >= |log| {
        assert prev[i] == rs[i - |log|].value;
      }
    }
  }

  datatype ContributionView = ContributionView(
    id: ObjectId, photoId: string, url: string, note: string, prompt: string, contributedAt: Time)

  function ViewOf(c: Contribution): ContributionView {
    ContributionView(c.id, c.photoId, c.url, c.note, c.prompt, c.contributedAt)
  }

  function Views(cs: seq<Contribution>): (vs: seq<ContributionView>)
    ensures |vs| == |cs| && forall k | 0 <= k < |cs| :: vs[k] == ViewOf(cs[k])
  {
    seq(|cs|, k requires 0 <= k < |cs| => ViewOf(cs[k]))
  }

  datatype Submitted = Submitted(message: string, contributions: seq<ContributionView>)

  /** `submitContributions`, as a function of the stored books and
      contributions: the reply and the contributions afterwards. */
  function SubmitStep(
    books: seq<MemoryBook>, log: seq<Contribution>, id: ObjectId,
    files: Option<seq<UploadedFile>>, notesField: FormField, promptsField: FormField,
    photoIdFor: nat -> PhotoId, recordIdFor: nat -> ObjectId, now: Time): (r: (Reply<Submitted>, seq<Contribution>))
    // a refused submission stores nothing
    ensures Validate(books, id, files, Normalize(notesField), Normalize(promptsField)).Some? ==>
      r == (Next(Validate(books, id, files, Normalize(notesField), Normalize(promptsField)).value), log)
    // the log only grows, and only with records of this book
    ensures GrowsWithBook(log, r.1, id) && (|r.1| > |log| ==> BookExists(books, id))
    // a success stores one record per file, in file order, and echoes them
    ensures r.0.Send? ==> (files.Some?
      && r.0 == Send(200, Submitted("Contributions submitted successfully", Views(r.1[|log|..])))
      && StoresAll(log, r.1, Records(id, files.value, Normalize(notesField), Normalize(promptsField), photoIdFor, recordIdFor, now)))
  {
    var notes := Normalize(notesField);
    var prompts := Normalize(promptsField);
    match Validate(books, id, files, notes, prompts)
    case Some(err) => (Next(err), log)
    case None =>
      var rs := Records(id, files.value, notes, prompts, photoIdFor, recordIdFor, now);
      var saved := SaveAll(log, rs);
      SavedRecords(log, rs, id);
      if saved.1.Some? then (Next(saved.1.value), saved.0)
      else
        SaveAllComplete(log, rs);
        (Send(200, Submitted("Contributions submitted successfully", Views(saved.0[|log|..]))), saved.0)
  }

  /** `out` is `log` followed by records of the book `id` only. */
  predicate GrowsWithBook(log: seq<Contribution>, out: seq<Contribution>, id: ObjectId) {
    |log| <= |out| && out[..|log|] == log
    && forall k | |log| <= k < |out| :: out[k].memoryBookId == id
  }

  /** `out` is `log` followed by every record of `rs`, in order. */
  predicate StoresAll(log: seq<Contribution>, out: seq<Contribution>, rs: seq<Option<Contribution>>) {
    |out| == |log| + |rs| && forall i | 0 <= i < |rs| :: rs[i] == Some(out[|log| + i])
  }

  /** What `SaveAll` adds are records of the book `id`. */
  lemma SavedRecords(log: seq<Contribution>, rs: seq<Option<Contribution>>, id: ObjectId)
    requires forall i | 0 <= i < |rs| :: rs[i].Some? ==> rs[i].value.memoryBookId == id
    ensures GrowsWithBook(log, SaveAll(log, rs).0, id)
  {
    var out := SaveAll(log, rs).0;
    forall k | |log| <= k < |out| ensures out[k].memoryBookId == id {
      var i :| 0 <= i < |rs| && rs[i] == Some(out[k]);
    }
  }

  /** Without a rejection every record was stored, in order. */
  lemma {:induction false} SaveAllComplete(log: seq<Contribution>, rs: seq<Option<Contribution>>)
    requires SaveAll(log, rs).1.None?
    ensures StoresAll(log, SaveAll(log, rs).0, rs)
  {
    if |rs| > 0 {
      var init := rs[..|rs| - 1];
      var prev := SaveAll(log, init);
      var last := rs[|rs| - 1];
      assert prev.1.None? && last.Some? && SaveAll(log, rs).0 == prev.0 + [last.value] by {
        if prev.1.Some? || last.None? || IdTaken(prev.0, last.value.id) {
          assert SaveAll(log, rs).1.Some?;
        }
      }
      SaveAllComplete(log, init);
      var out := SaveAll(log, rs).0;
      forall i | 0 <= i < |rs| ensures rs[i] == Some(out[|log| + i]) {
        if i < |init| {
          assert init[i] == rs[i];
          assert out[|log| + i] == prev.0[|log| + i];
        }
      }
    }
  }

  /** With valid inputs and fresh ids, a submission is accepted and stores
      exactly the records, one per file. */
  lemma AcceptedSubmission(
    books: seq<MemoryBook>, log: seq<Contribution>, id: ObjectId,
    files: seq<UploadedFile>, notesField: FormField, promptsField: FormField,
    photoIdFor: nat -> PhotoId, recordIdFor: nat -> ObjectId, now: Time)
    requires id != ""
    requires Validate(books, id, Some(files), Normalize(notesField), Normalize(promptsField)).None?
    requires forall i | 0 <= i < |files| :: !IdTaken(log, recordIdFor(i))
    requires forall i, j | 0 <= i < j < |files| :: recordIdFor(i) != recordIdFor(j)
    ensures var r := SubmitStep(books, log, id, Some(files), notesField, promptsField, photoIdFor, recordIdFor, now);
      r.0.Send? && r.1 == log + Values(Records(id, files, Normalize(notesField), Normalize(promptsField), photoIdFor, recordIdFor, now))
  {
    var rs := Records(id, files, Normalize(notesField), Normalize(promptsField), photoIdFor, recordIdFor, now);
    SaveAllAppends(log, rs);
  }

  /** The saves of `Promise.all`, one after the other: each document that
      validates is inserted, and the first rejection is kept. */
  method SaveEach(db: Database, rs: seq<Option<Contribution>>) returns (failure: Option<AppError>)
    requires db.Valid()
    requires forall i | 0 <= i < |rs| :: rs[i].Some? ==> WellFormedContribution(rs[i].value)
    modifies db
    ensures db.Valid()
    ensures (db.contributions, failure) == SaveAll(old(db.contributions), rs)
    ensures db.users == old(db.users) && db.books == old(db.books)
  {
    failure := None;
    ghost var log := db.contributions;
    var i := 0;
    while i < |rs|
      invariant 0 <= i <= |rs|
      invariant db.Valid() && db.users == old(db.users) && db.books == old(db.books)
      invariant (db.contributions, failure) == SaveAll(log, rs[..i])
    {
      SaveAllExtend(log, rs, i);
      if rs[i].None? {
        failure := FirstError(failure, ValidationFailure());
      } else {
        var err := db.InsertContribution(rs[i].value);
        if err.Some? {
          failure := FirstError(failure, err.value);
        }
      }
      i := i + 1;
    }
    assert rs[..i] == rs;
  }

  /** The handler over the database: normalise, validate, then save one
      document per file; every save is attempted. */
  method SubmitContributions(
    db: Database, id: ObjectId,
    files: Option<seq<UploadedFile>>, notesField: FormField, promptsField: FormField,
    photoIdFor: nat -> PhotoId, recordIdFor: nat -> ObjectId, now: Time) returns (reply: Reply<Submitted>)
    requires db.Valid()
    modifies db
    ensures db.Valid()
    ensures (reply, db.contributions) == SubmitStep(old(db.books), old(db.contributions), id, files, notesField, promptsField, photoIdFor, recordIdFor, now)
    ensures db.users == old(db.users) && db.books == old(db.books)
  {
    var books, log := db.books, db.contributions;
    ghost var step := SubmitStep(books, log, id, files, notesField, promptsField, photoIdFor, recordIdFor, now);
    var notes := Normalize(notesField);
    var prompts := Normalize(promptsField);
    var check := Validate(books, id, files, notes, prompts);
    if check.Some? {
      assert step == (Next(check.value), log);
      return Next(check.value);
    }
    var rs := Records(id, files.value, notes, prompts, photoIdFor, recordIdFor, now);
    RecordsWellFormed(id, files.value, notes, prompts, photoIdFor, recordIdFor, now);
    var failure := SaveEach(db, rs);
    assert step.1 == SaveAll(log, rs).0;
    if failure.Some? {
      assert step.0 == Next(failure.value);
      return Next(failure.value);
    }
    reply := Send(200, Submitted("Contributions submitted successfully", Views(db.contributions[|log|..])));
    assert step.0 == reply;
  }

  // ---------------------------------------------------------------------
  // getContributions

  function ContributedAt(c: Contribution): Time { c.contributedAt }

  function OfBook(id: ObjectId): Contribution -> bool {
    (c: Contribution) => c.memoryBookId == id
  }

  /** The book's contributions, newest first. */
  function BookContributions(log: seq<Contribution>, id: ObjectId): seq<Contribution> {
    Paging.SortDesc(Paging.Filter(log, OfBook(id)), ContributedAt)
  }

  datatype ContributionPage = ContributionPage(data: seq<ContributionView>, total: nat, limit: int, offset: int)

  /** `getContributions`: `limit` and `offset` fall back to 50 and 0; an
      unknown book is MEMORY_BOOK_NOT_FOUND; a negative offset is refused by
      the database; otherwise the book's contributions, newest first, cut to
      the window, with the count of all of them. */
  function GetContributions(books: seq<MemoryBook>, log: seq<Contribution>, id: ObjectId, limitQ: Option<string>, offsetQ: Option<string>): (r: Reply<ContributionPage>)
    ensures !BookExists(books, id) ==> r == Next(SubmitBookNotFound())
    ensures BookExists(books, id) && Paging.QueryInt(offsetQ, 0) < 0 ==> r == Next(NegativeSkipError())
    ensures r.Send? <==> BookExists(books, id) && Paging.QueryInt(offsetQ, 0) >= 0
    ensures r.Send? ==> (r.status == 200
      && r.body.limit == Paging.QueryInt(limitQ, 50) && r.body.offset == Paging.QueryInt(offsetQ, 0)
      && r.body.total == Count(log, OfBook(id))
      && r.body.data == Views(Paging.Window(BookContributions(log, id), r.body.offset, Paging.Abs(r.body.limit))))
  {
    var limit := Paging.QueryInt(limitQ, 50);
    var offset := Paging.QueryInt(offsetQ, 0);
    if Find(books, (b: MemoryBook) => b.id == id).None? then Next(SubmitBookNotFound())
    else if offset < 0 then Next(NegativeSkipError())
    else
      Send(200, ContributionPage(Views(Paging.Window(BookContributions(log, id), offset, Paging.Abs(limit))), Count(log, OfBook(id)), limit, offset))
  }

  /** `v` shows a stored contribution of the book `id`. */
  predicate FromBook(v: ContributionView, log: seq<Contribution>, id: ObjectId) {
    exists c | c in log :: c.memoryBookId == id && v == ViewOf(c)
  }

  /** The listing shows only the book's own contributions, newest first, and
      never more than the book has. */
  lemma ContributionListing(books: seq<MemoryBook>, log: seq<Contribution>, id: ObjectId, limitQ: Option<string>, offsetQ: Option<string>)
    requires GetContributions(books, log, id, limitQ, offsetQ).Send?
    ensures var page := GetContributions(books, log, id, limitQ, offsetQ).body;
      (forall k | 0 <= k < |page.data| :: FromBook(page.data[k], log, id))
      && (forall i, j | 0 <= i < j < |page.data| :: page.data[i].contributedAt >= page.data[j].contributedAt)
      && |page.data| <= page.total
  {
    var page := GetContributions(books, log, id, limitQ, offsetQ).body;
    var offset: nat, limit: nat := page.offset, Paging.Abs(page.limit);
    var all := BookContributions(log, id);
    var w := Paging.Window(all, offset, limit);
    assert page.data == Views(w);
    BookWindow(log, id, offset, limit);
    WindowViews(w, log, id);
    assert |all| == Count(log, OfBook(id)) by {
      Paging.SortDescSorted(Paging.Filter(log, OfBook(id)), ContributedAt);
    }
    assert |w| <= |all|;
  }

  /** The contributions a listing is cut from: exactly the book's, newest
      first, as many as the count says. */
  lemma BookContributionsSpec(log: seq<Contribution>, id: ObjectId)
    ensures Paging.SortedDesc(BookContributions(log, id), ContributedAt)
    ensures forall c :: c in BookContributions(log, id) <==> c in log && c.memoryBookId == id
    ensures |BookContributions(log, id)| == Count(log, OfBook(id))
  {
    Paging.SortDescSorted(Paging.Filter(log, OfBook(id)), ContributedAt);
  }

  /** A window of the book's contributions is newest first and holds only
      contributions of that book. */
  lemma BookWindow(log: seq<Contribution>, id: ObjectId, offset: nat, limit: nat)
    ensures var w := Paging.Window(BookContributions(log, id), offset, limit);
      Paging.SortedDesc(w, ContributedAt) && forall x | x in w :: x in log && x.memoryBookId == id
  {
    var all := BookContributions(log, id);
    Paging.SortDescSorted(Paging.Filter(log, OfBook(id)), ContributedAt);
    Paging.WindowSorted(all, offset, limit, ContributedAt);
    Paging.WindowWithin(all, offset, limit);
    var mine := Paging.Filter(log, OfBook(id));
    forall x | x in Paging.Window(all, offset, limit) ensures x in log && x.memoryBookId == id {
      assert x in multiset(all);
      assert x in multiset(mine);
      assert x in mine;
    }
  }

  /** The views of such a window keep its order and its provenance. */
  lemma WindowViews(w: seq<Contribution>, log: seq<Contribution>, id: ObjectId)
    requires Paging.SortedDesc(w, ContributedAt) && forall x | x in w :: x in log && x.memoryBookId == id
    ensures forall k | 0 <= k < |Views(w)| :: FromBook(Views(w)[k], log, id)
    ensures forall i, j | 0 <= i < j < |Views(w)| :: Views(w)[i].contributedAt >= Views(w)[j].contributedAt
  {
    var data := Views(w);
    forall k | 0 <= k < |data| ensures FromBook(data[k], log, id) {
      assert w[k] in w;
      assert data[k] == ViewOf(w[k]);
    }
    forall i, j | 0 <= i < j < |data| ensures data[i].contributedAt >= data[j].contributedAt {
      assert ContributedAt(w[i]) >= ContributedAt(w[j]);
    }
  }

  /** With the default window, a book's contributions come back up to the
      first fifty. */
  lemma DefaultContributionWindow(books: seq<MemoryBook>, log: seq<Contribution>, id: ObjectId)
    requires BookExists(books, id)
    ensures var r := GetContributions(books, log, id, None, None);
      r.Send? && r.body.limit == 50 && r.body.offset == 0
      && |r.body.data| == if Count(log, OfBook(id)) <= 50 then Count(log, OfBook(id)) else 50
  {
  }
}
