/** The image endpoints: the reply to an upload, built from whatever the
    storage engine left on `req.file`; the local image route, which now
    answers 404 for every name; and the deletion of an image by public id
    or by URL. */
module UploadController {
  import opened Common
  import opened ErrorHandler
  import PublicId

  /** What the storage engine leaves on `req.file`; an absent property is
      the empty string (or 0 for the size). */
  datatype StoredFile = StoredFile(
    path: string, secureUrl: string, url: string,
    filename: string, publicId: string,
    originalName: string, size: int, mimeType: string)

  /** The reply to an upload. */
  datatype Uploaded = Uploaded(
    id: PhotoId, filename: string, url: string,
    originalName: string, size: int, mimeType: string, uploadedAt: Time)

  function NoFileUploaded(): AppError {
    Raise(400, "VALIDATION_ERROR", "No file uploaded")
  }

  function UploadFailed(): AppError {
    Raise(500, "UPLOAD_ERROR", "Failed to upload image to Cloudinary")
  }

  /** `a || b || c` over strings: the first non-empty one, or "". */
  function FirstNonEmpty(a: string, b: string, c: string): (r: string)
    ensures r == "" <==> a == "" && b == "" && c == ""
    ensures r == a || r == b || r == c
    ensures a != "" ==> r == a
    ensures a == "" && b != "" ==> r == b
  {
    if a != "" then a else if b != "" then b else c
  }

  /** `uploadImage`: no file is 400 VALIDATION_ERROR; a file that has none of
      `path`, `secure_url`, `url` is 500 UPLOAD_ERROR; otherwise 200 with the
      first of those three, the stored name (or the public id) and a fresh
      photo id. `photoId` stands for `crypto.randomBytes(16)` in hex and `now`
      for the clock. */
  function UploadImage(file: Option<StoredFile>, photoId: PhotoId, now: Time): (r: Reply<Uploaded>)
    ensures file.None? ==> r == Next(NoFileUploaded())
    ensures file.Some? && file.value.path == "" && file.value.secureUrl == "" && file.value.url == "" ==> r == Next(UploadFailed())
    ensures r.Send? <==> file.Some? && (file.value.path != "" || file.value.secureUrl != "" || file.value.url != "")
    ensures r.Send? ==> (r.status == 200 && r.body.id == photoId && r.body.uploadedAt == now
      && r.body.url == FirstNonEmpty(file.value.path, file.value.secureUrl, file.value.url)
      && r.body.filename == (if file.value.filename != "" then file.value.filename else file.value.publicId)
      && r.body.originalName == file.value.originalName && r.body.size == file.value.size && r.body.mimeType == file.value.mimeType)
  {
    if file.None? then Next(NoFileUploaded())
    else
      var f := file.value;
      var cloudinaryUrl := FirstNonEmpty(f.path, f.secureUrl, f.url);
      if cloudinaryUrl == "" then Next(UploadFailed())
      else
        Send(200, Uploaded(photoId, if f.filename != "" then f.filename else f.publicId, cloudinaryUrl, f.originalName, f.size, f.mimeType, now))
  }

  /** The storage engine's `path` wins over the other two. On the upload
      route the engine is multer's disk storage, so `path` is the local
      file path under the upload directory, and that path is what the reply
      carries as `url`. */
  lemma UploadPrefersPath(f: StoredFile, photoId: PhotoId, now: Time)
    requires f.path != ""
    ensures UploadImage(Some(f), photoId, now).Send? && UploadImage(Some(f), photoId, now).body.url == f.path
  {
  }

  // ---------------------------------------------------------------------
  // getImage

  // The message is kept in four pieces so that proofs about its characters
  // stay small; the text is the one the handler sends.
  const GonePart1: string := "Images are now served "
  const GonePart2: string := "directly from Cloudinary."
  const GonePart3: string := " Please use the Cloudinary"
  const GonePart4: string := " URL returned from upload."

  function ImageGone(): AppError {
    Raise(404, "IMAGE_NOT_FOUND", GonePart1 + GonePart2 + GonePart3 + GonePart4)
  }

  /** `getImage`: local files are no longer served; every name is 404. */
  function GetImage(filename: string): (r: Reply<Message>)
    ensures r.Next? && Render(r.err).status == 404 && Render(r.err).error.code == "IMAGE_NOT_FOUND"
  {
    Next(ImageGone())
  }

  /** The answer does not depend on the name asked for. */
  lemma GetImageIgnoresName(a: string, b: string)
    ensures GetImage(a) == GetImage(b)
  {
  }

  // ---------------------------------------------------------------------
  // deleteImage

  datatype Deleted = Deleted(message: string, result: string)

  function InvalidUrl(): AppError {
    Raise(400, "INVALID_URL", "Invalid Cloudinary URL")
  }

  function ImageNotFound(): AppError {
    Raise(404, "IMAGE_NOT_FOUND", "Không tìm thấy ảnh")
  }

  function DeleteFailed(): AppError {
    Raise(500, "DELETE_ERROR", "Failed to delete image from Cloudinary")
  }

  /** The public id `deleteImage` destroys: a name that does not start with
      `http` is a public id already; a URL gives the id the regular
      expression finds in it (this controller's `extractPublicId` has no
      `http` guard of its own), and `None` when it finds none. */
  function DeleteTarget(filename: string): (r: Option<string>)
    ensures !StartsWith(filename, "http") ==> r == Some(filename)
    ensures StartsWith(filename, "http") ==> r == PublicId.ExtractPublicId(filename)
  {
    if StartsWith(filename, "http") then PublicId.ExtractPublicId(filename) else Some(filename)
  }

  /** `deleteImage`; `destroy` is `cloudinary.uploader.destroy`. */
  function DeleteImage(filename: string, destroy: string -> DestroyOutcome): (r: Reply<Deleted>)
    ensures DeleteTarget(filename).None? ==> r == Next(InvalidUrl())
    ensures DeleteTarget(filename).Some? && destroy(DeleteTarget(filename).value).Rejected? ==> r == Next(DeleteFailed())
    ensures DeleteTarget(filename).Some? && destroy(DeleteTarget(filename).value) == Resolved("not found") ==> r == Next(ImageNotFound())
    ensures r.Send? <==> (DeleteTarget(filename).Some? && destroy(DeleteTarget(filename).value).Resolved?
      && destroy(DeleteTarget(filename).value).result != "not found")
    ensures r.Send? ==> r == Send(200, Deleted("Image deleted successfully", destroy(DeleteTarget(filename).value).result))
  {
    match DeleteTarget(filename)
    case None => Next(InvalidUrl())
    case Some(publicId) =>
      match destroy(publicId)
      case Rejected => Next(DeleteFailed())
      case Resolved(result) =>
        if result == "not found" then Next(ImageNotFound()) else Send(200, Deleted("Image deleted successfully", result))
  }

  /** A URL without a public id is refused before Cloudinary is asked: the
      answer is the same whatever `destroy` would do. */
  lemma InvalidUrlNeverDestroys(filename: string, d1: string -> DestroyOutcome, d2: string -> DestroyOutcome)
    requires StartsWith(filename, "http") && PublicId.ExtractPublicId(filename).None?
    ensures DeleteImage(filename, d1) == DeleteImage(filename, d2) == Next(InvalidUrl())
  {
  }

  /** Only the destroy call on the target matters. */
  lemma DeleteAsksOnlyForTarget(filename: string, d1: string -> DestroyOutcome, d2: string -> DestroyOutcome)
    requires DeleteTarget(filename).Some? && d1(DeleteTarget(filename).value) == d2(DeleteTarget(filename).value)
    ensures DeleteImage(filename, d1) == DeleteImage(filename, d2)
  {
  }

  /** Without the guard, the expression also reads a public id out of a
      relative path, which the memory-book handlers' guarded version refuses. */
  lemma UnguardedReadsRelativePath()
    ensures PublicId.ExtractPublicId("/upload/remi/abc.jpg") == Some("remi/abc")
  {
    assert "" + "/upload/remi/abc.jpg" == "/upload/remi/abc.jpg";
    assert "" + "/upload/v123/remi/abc.jpg" == "/upload/v123/remi/abc.jpg";
    PublicId.CloudinaryExamples("");
  }
}
