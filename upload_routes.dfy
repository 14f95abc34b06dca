/** The single-image upload route: its mime allow-list, its size limit,
    and the error middleware that turns upload failures into 400 replies.
    The middleware is mounted after all three image routes, so it also sees
    the errors their handlers pass on; `ControllerErrorsForwarded` and
    `DeleteErrorsForwarded` show it hands those on unchanged. */
module UploadRoutes {
  import opened Common
  import opened ErrorHandler
  import ContributionController
  import UploadController

  const AllowedMimes: seq<string> := ["image/jpeg", "image/jpg", "image/png", "image/webp", "image/gif"]

  /** `limits.fileSize`: 10 MiB. */
  const MaxFileSize: nat := 10 * 1024 * 1024

  const WrongTypeLead: string := "Chỉ chấp nhận"
  const WrongType: string := WrongTypeLead + " file ảnh (JPEG, PNG, WebP, GIF)"

  /** The error the filter hands to multer for a refused type. */
  function NotAllowed(): (err: AppError)
    ensures err.message == Some(WrongType) && err.kind == Plain
  {
    AppError(0, "", Some(WrongType), "", Plain)
  }

  /** `fileFilter`: exactly the five listed mime types pass. */
  function FileFilter(mimetype: string): (r: Option<AppError>)
    ensures r.None? <==> mimetype in AllowedMimes
    ensures r.Some? ==> r.value == NotAllowed()
  {
    if mimetype in AllowedMimes then None else Some(NotAllowed())
  }

  /** This filter is stricter than the contribution route's: what it lets
      through is an image there too, but not conversely. */
  lemma FilterStricterThanContributions(mimetype: string)
    ensures FileFilter(mimetype).None? ==> ContributionController.FileFilter(mimetype).None?
    ensures ContributionController.FileFilter("image/svg+xml").None? && FileFilter("image/svg+xml").Some?
  {
    if mimetype in AllowedMimes {
      var k :| 0 <= k < |AllowedMimes| && AllowedMimes[k] == mimetype;
      assert mimetype[..6] == "image/";
    }
    assert "image/svg+xml"[..6] == "image/";
  }

  /** The MulterError the size limit raises for a file over `MaxFileSize`. */
  function SizeLimit(size: nat): (r: Option<AppError>)
    ensures r.Some? <==> size > MaxFileSize
    ensures r.Some? ==> r.value.kind == Multer("LIMIT_FILE_SIZE", "file")
  {
    if size > MaxFileSize then Some(AppError(0, "", Some("File too large"), "", Multer("LIMIT_FILE_SIZE", "file"))) else None
  }

  /** What the error middleware does: answer with an error body, or pass an
      error on to the final handler. */
  datatype Outcome = Respond(response: ErrorResponse) | Forward(err: AppError)

  function FileTooLarge(): ErrorResponse {
    ErrorResponse(400, ErrorBody("FILE_TOO_LARGE", "File quá lớn. Kích thước tối đa: 10MB", None))
  }

  function InvalidFileType(): ErrorResponse {
    ErrorResponse(400, ErrorBody("INVALID_FILE_TYPE", WrongType, None))
  }

  /** Reading `.includes` of a missing message throws; Express hands the
      thrown `TypeError` to the next error handler. */
  function MissingMessageTypeError(): (err: AppError)
    ensures Render(err).status == 500
  {
    AppError(0, "", Some("Cannot read properties of undefined (reading 'includes')"), "", Plain)
  }

  predicate NamesWrongType(m: string) {
    Includes(m, ContributionController.NotAnImageLead) || Includes(m, WrongTypeLead)
  }

  /** `handleMulterError`: a MulterError LIMIT_FILE_SIZE is FILE_TOO_LARGE;
      then any message naming a wrong type is INVALID_FILE_TYPE; an error
      without a message makes the check itself throw; the rest goes on. */
  function HandleMulterError(err: AppError): (r: Outcome)
    ensures err.kind.Multer? && err.kind.multerCode == "LIMIT_FILE_SIZE" ==> r == Respond(FileTooLarge())
    ensures !(err.kind.Multer? && err.kind.multerCode == "LIMIT_FILE_SIZE") ==>
      (if err.message.None? then r == Forward(MissingMessageTypeError())
       else if NamesWrongType(err.message.value) then r == Respond(InvalidFileType())
       else r == Forward(err))
    ensures r.Respond? ==> r.response.status == 400
  {
    if err.kind.Multer? && err.kind.multerCode == "LIMIT_FILE_SIZE" then Respond(FileTooLarge())
    else if err.message.None? then Forward(MissingMessageTypeError())
    else if NamesWrongType(err.message.value) then Respond(InvalidFileType())
    else Forward(err)
  }

  /** A refused type, from this route's filter or the contribution one,
      reaches the client as 400 INVALID_FILE_TYPE. */
  lemma FilterRejectionIsInvalidType(mimetype: string)
    requires mimetype !in AllowedMimes
    ensures HandleMulterError(FileFilter(mimetype).value) == Respond(InvalidFileType())
    ensures HandleMulterError(ContributionController.NotAnImage()) == Respond(InvalidFileType())
  {
    LeadIncluded(WrongTypeLead, " file ảnh (JPEG, PNG, WebP, GIF)");
    LeadIncluded(ContributionController.NotAnImageLead, " are allowed");
  }

  /** A file over 10 MiB reaches the client as 400 FILE_TOO_LARGE. */
  lemma OversizeIsTooLarge(size: nat)
    requires size > MaxFileSize
    ensures HandleMulterError(SizeLimit(size).value) == Respond(FileTooLarge())
  {
  }

  /** Unlike the contribution route, this one does not guard the message:
      an error that has none becomes a 500 carrying the TypeError's
      message instead of being passed on. */
  lemma MissingMessageIsServerError(err: AppError)
    requires !err.kind.Multer? && err.message.None?
    ensures HandleMulterError(err).Forward? && HandleMulterError(err).err != err
    ensures Render(HandleMulterError(err).err).status == 500
    ensures Render(HandleMulterError(err).err).error.message == "Cannot read properties of undefined (reading 'includes')"
  {
  }

  /** No character `a` is directly followed by `b` in `s`. */
  predicate NoPair(s: string, a: char, b: char) {
    forall i | 0 <= i < |s| - 1 :: !(s[i] == a && s[i + 1] == b)
  }

  /** Neither "On" nor "Ch", the openings of the two refusals, occurs. */
  predicate Clean(m: string) {
    NoPair(m, 'O', 'n') && NoPair(m, 'C', 'h')
  }

  lemma NoPairAppend(s: string, t: string, a: char, b: char)
    requires NoPair(s, a, b) && NoPair(t, a, b) && |s| > 0
    requires s[|s| - 1] != a
    ensures NoPair(s + t, a, b)
  {
    forall i | 0 <= i < |s + t| - 1 ensures !((s + t)[i] == a && (s + t)[i + 1] == b) {
      if i + 1 > |s| {
        assert (s + t)[i] == t[i - |s|] && (s + t)[i + 1] == t[i + 1 - |s|];
      }
    }
  }

  lemma CleanAppend(s: string, t: string)
    requires Clean(s) && Clean(t) && |s| > 0 && s[|s| - 1] != 'O' && s[|s| - 1] != 'C'
    ensures Clean(s + t)
  {
    NoPairAppend(s, t, 'O', 'n');
    NoPairAppend(s, t, 'C', 'h');
  }

  /** A clean message names no wrong type. */
  lemma NotNamingWrongType(m: string)
    requires Clean(m)
    ensures !NamesWrongType(m)
  {
    var a := ContributionController.NotAnImageLead;
    var b := WrongTypeLead;
    assert a[0] == 'O' && a[1] == 'n';
    assert b[0] == 'C' && b[1] == 'h';
    forall i | 0 <= i <= |m| - |a| ensures !OccursAt(m, a, i) {
      OccursAtHead(m, a, i);
    }
    forall i | 0 <= i <= |m| - |b| ensures !OccursAt(m, b, i) {
      OccursAtHead(m, b, i);
    }
  }

  // Each message piece on its own, to keep every proof small.
  lemma Gone1Clean() ensures Clean(UploadController.GonePart1) {}
  lemma Gone2Clean() ensures Clean(UploadController.GonePart2) {}
  lemma Gone3Clean() ensures Clean(UploadController.GonePart3) {}
  lemma Gone4Clean() ensures Clean(UploadController.GonePart4) {}
  lemma NoFileClean() ensures Clean(UploadController.NoFileUploaded().message.value) {}
  lemma UploadFailedClean() ensures Clean(UploadController.UploadFailed().message.value) {}
  lemma InvalidUrlClean() ensures Clean(UploadController.InvalidUrl().message.value) {}
  lemma ImageNotFoundClean() ensures Clean(UploadController.ImageNotFound().message.value) {}
  lemma DeleteFailedClean() ensures Clean(UploadController.DeleteFailed().message.value) {}

  lemma ImageGoneClean()
    ensures Clean(UploadController.ImageGone().message.value)
  {
    var p1, p2, p3, p4 := UploadController.GonePart1, UploadController.GonePart2,
      UploadController.GonePart3, UploadController.GonePart4;
    Gone1Clean(); Gone2Clean(); Gone3Clean(); Gone4Clean();
    CleanAppend(p1, p2);
    CleanAppend(p1 + p2, p3);
    CleanAppend(p1 + p2 + p3, p4);
  }

  /** An error that is no MulterError and carries a clean message is handed
      on unchanged. */
  lemma CleanForwarded(err: AppError)
    requires !err.kind.Multer? && err.message.Some? && Clean(err.message.value)
    ensures HandleMulterError(err) == Forward(err)
  {
    NotNamingWrongType(err.message.value);
  }

  /** The errors the upload and image handlers pass to `next` name no
      wrong type, so the middleware hands them on unchanged. */
  lemma ControllerErrorsForwarded()
    ensures HandleMulterError(UploadController.NoFileUploaded()) == Forward(UploadController.NoFileUploaded())
    ensures HandleMulterError(UploadController.UploadFailed()) == Forward(UploadController.UploadFailed())
    ensures HandleMulterError(UploadController.ImageGone()) == Forward(UploadController.ImageGone())
  {
    NoFileClean();
    CleanForwarded(UploadController.NoFileUploaded());
    UploadFailedClean();
    CleanForwarded(UploadController.UploadFailed());
    ImageGoneClean();
    CleanForwarded(UploadController.ImageGone());
  }

  /** Likewise for the errors of the delete handler. */
  lemma DeleteErrorsForwarded()
    ensures HandleMulterError(UploadController.InvalidUrl()) == Forward(UploadController.InvalidUrl())
    ensures HandleMulterError(UploadController.ImageNotFound()) == Forward(UploadController.ImageNotFound())
    ensures HandleMulterError(UploadController.DeleteFailed()) == Forward(UploadController.DeleteFailed())
  {
    InvalidUrlClean();
    CleanForwarded(UploadController.InvalidUrl());
    ImageNotFoundClean();
    CleanForwarded(UploadController.ImageNotFound());
    DeleteFailedClean();
    CleanForwarded(UploadController.DeleteFailed());
  }
}
