/** The contribution route: at most ten files under the field `files`, and
    the error middleware between the upload and `submitContributions`. */
module ContributionRoutes {
  import opened Common
  import opened ErrorHandler
  import opened UploadRoutes
  import ContributionController
  import MemoryBookSchema

  const FilesField: string := "files"
  const MaxFiles: nat := 10

  /** `array(name, maxCount)` over the field names of the incoming file
      parts, in order: the first part under another field, or past the
      `maxCount`-th, is refused with a MulterError LIMIT_UNEXPECTED_FILE
      naming its field. */
  function ArrayLimit(fields: seq<string>, name: string, maxCount: nat): (r: Option<AppError>)
    ensures r.None? <==> |fields| <= maxCount && forall i | 0 <= i < |fields| :: fields[i] == name
    ensures r.Some? ==> (r.value.kind.Multer? && r.value.kind.multerCode == "LIMIT_UNEXPECTED_FILE"
      && r.value.message == Some("Unexpected field") && r.value.statusCode == 0 && r.value.errorCode == "")
  {
    if |fields| == 0 then None
    else if fields[0] != name || maxCount == 0 then
      Some(AppError(0, "", Some("Unexpected field"), "", Multer("LIMIT_UNEXPECTED_FILE", fields[0])))
    else
      var rest := ArrayLimit(fields[1..], name, maxCount - 1);
      assert forall i | 1 <= i < |fields| :: fields[i] == fields[1..][i - 1];
      rest
  }

  function TooManyFiles(): ErrorResponse {
    ErrorResponse(400, ErrorBody("TOO_MANY_FILES", "Tối đa 10 ảnh mỗi lần đóng góp", None))
  }

  /** `handleMulterError` of this route: LIMIT_FILE_SIZE is FILE_TOO_LARGE,
      LIMIT_FILE_COUNT is TOO_MANY_FILES, a truthy message naming a wrong
      type is INVALID_FILE_TYPE, anything else goes on unchanged. */
  function HandleMulterError(err: AppError): (r: Outcome)
    ensures err.kind.Multer? && err.kind.multerCode == "LIMIT_FILE_SIZE" ==> r == Respond(FileTooLarge())
    ensures err.kind.Multer? && err.kind.multerCode == "LIMIT_FILE_COUNT" ==> r == Respond(TooManyFiles())
    ensures !(err.kind.Multer? && err.kind.multerCode in {"LIMIT_FILE_SIZE", "LIMIT_FILE_COUNT"}) ==>
      r == (if Truthy(err.message) && NamesWrongType(err.message.value) then Respond(InvalidFileType()) else Forward(err))
  {
    if err.kind.Multer? && err.kind.multerCode == "LIMIT_FILE_SIZE" then Respond(FileTooLarge())
    else if err.kind.Multer? && err.kind.multerCode == "LIMIT_FILE_COUNT" then Respond(TooManyFiles())
    else if Truthy(err.message) && NamesWrongType(err.message.value) then Respond(InvalidFileType())
    else Forward(err)
  }

  /** An error without a message is passed on as it is. */
  lemma MissingMessageForwarded(err: AppError)
    requires !err.kind.Multer? && err.message.None?
    ensures HandleMulterError(err) == Forward(err)
  {
  }

  /** The contribution filter's own refusal is INVALID_FILE_TYPE. */
  lemma NotAnImageIsInvalidType()
    ensures HandleMulterError(ContributionController.NotAnImage()) == Respond(InvalidFileType())
  {
    LeadIncluded(ContributionController.NotAnImageLead, " are allowed");
  }

  /** What gets past the upload is at most ten files, so the handler's own
      TOO_MANY_FILES check never fires behind this route. */
  lemma AtMostTenReachSubmit(
    fields: seq<string>, books: seq<MemoryBookSchema.MemoryBook>, id: ObjectId,
    files: seq<ContributionController.UploadedFile>, notes: seq<string>, prompts: seq<string>)
    requires ArrayLimit(fields, FilesField, MaxFiles).None? && |files| == |fields|
    ensures |fields| <= 10
    ensures ContributionController.Validate(books, id, Some(files), notes, prompts) != Some(ContributionController.TooManyFiles())
  {
  }

  /** As written, an eleventh file trips the array's `maxCount`, which is
      reported as LIMIT_UNEXPECTED_FILE rather than LIMIT_FILE_COUNT: the
      middleware passes it on and the client gets a 500. */
  lemma EleventhFileIsServerError(fields: seq<string>)
    requires |fields| == 11 && forall i | 0 <= i < 11 :: fields[i] == FilesField
    ensures var err := ArrayLimit(fields, FilesField, MaxFiles);
      err.Some? && HandleMulterError(err.value) == Forward(err.value)
      && Render(err.value).status == 500 && Render(err.value).error.code == "INTERNAL_SERVER_ERROR"
  {
    var err := ArrayLimit(fields, FilesField, MaxFiles);
    assert err.Some?;
    UnexpectedFieldForwarded(err.value);
  }

  /** LIMIT_UNEXPECTED_FILE is none of the cases the middleware answers. */
  lemma UnexpectedFieldForwarded(err: AppError)
    requires err.kind.Multer? && err.kind.multerCode == "LIMIT_UNEXPECTED_FILE" && err.message == Some("Unexpected field")
    ensures HandleMulterError(err) == Forward(err)
  {
    var m := "Unexpected field";
    assert forall i | 0 <= i < |m| :: m[i] != 'O' && m[i] != 'C';
    NoOccurrence(m, ContributionController.NotAnImageLead);
    NoOccurrence(m, WrongTypeLead);
  }

  /** No occurrence in a string that lacks the first character sought. */
  lemma NoOccurrence(s: string, sub: string)
    requires |sub| >= 2 && forall i | 0 <= i < |s| :: s[i] != sub[0]
    ensures !Includes(s, sub)
  {
    forall i | 0 <= i <= |s| - |sub| ensures !OccursAt(s, sub, i) {
      OccursAtHead(s, sub, i);
    }
  }

  /** The middleware as the TOO_MANY_FILES branch means it: a count over
      the cap on the files field, however multer names it, is TOO_MANY_FILES. */
  function HandleMulterErrorIntended(err: AppError): (r: Outcome)
    ensures err.kind == Multer("LIMIT_UNEXPECTED_FILE", FilesField) ==> r == Respond(TooManyFiles())
    ensures err.kind != Multer("LIMIT_UNEXPECTED_FILE", FilesField) ==> r == HandleMulterError(err)
  {
    if err.kind == Multer("LIMIT_UNEXPECTED_FILE", FilesField) then Respond(TooManyFiles())
    else HandleMulterError(err)
  }

  /** With the intended middleware, more than ten files under `files` give
      400 TOO_MANY_FILES. */
  lemma {:induction false} TooManyFilesIntended(fields: seq<string>)
    requires |fields| > MaxFiles && forall i | 0 <= i < |fields| :: fields[i] == FilesField
    ensures HandleMulterErrorIntended(ArrayLimit(fields, FilesField, MaxFiles).value) == Respond(TooManyFiles())
  {
    OverCapNamesField(fields, MaxFiles);
  }

  /** The part refused for being over the cap is one of the `files` parts. */
  lemma {:induction false} OverCapNamesField(fields: seq<string>, cap: nat)
    requires |fields| > cap && forall i | 0 <= i < |fields| :: fields[i] == FilesField
    ensures ArrayLimit(fields, FilesField, cap).Some?
    ensures ArrayLimit(fields, FilesField, cap).value.kind == Multer("LIMIT_UNEXPECTED_FILE", FilesField)
    decreases cap
  {
    if cap > 0 {
      assert forall i | 0 <= i < |fields[1..]| :: fields[1..][i] == fields[i + 1];
      OverCapNamesField(fields[1..], cap - 1);
    }
  }
}
