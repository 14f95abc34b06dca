# remi-backend, modelled in Dafny

remi-backend is an Express and Mongoose service behind a "memory book" app.
A signed-in user creates books of photo pages. Each book has two public
capability keys:

- a **share id**: anyone holding it can read the whole book;
- a **contribute id**: anyone holding it can see the book's name and type
  and send photos to it.

Book pages may reference Cloudinary images, and deleting a book asks
Cloudinary to destroy them. The backend's own upload routes store files
on local disk.

The model covers:

- the request handlers of the four controllers (memory books, contributions,
  uploads, authentication);
- the `authenticate` middleware and the final error handler;
- the multer error middlewares of the two upload routes;
- the two Mongoose schemas, the short-id generator, and the regular
  expression that pulls a public id out of a Cloudinary URL.

A state-changing handler is modelled twice:

- as a pure step function, which gives the reply and the collection
  afterwards (`CreateStep`, `UpdateStep`, `SubmitStep`, `RegisterStep`);
- as a method over a `Database` object, whose `ensures` ties its reply and
  its new state to that step function.

Properties of the handler are proved as lemmas about the step function.
The database keeps users, books and contributions as sequences in insertion
order. Its invariant `Valid()` holds these facts:

- every stored value passes its schema's validators;
- ids, share ids and contribute ids are unique;
- share id and contribute id differ within a book;
- every contribution carries a non-empty `memoryBookId`. The id is not checked
  against the books, and deleting a book leaves its contributions behind.

Anything random, timed or remote is a parameter of the operation:

| parameter | stands for |
|---|---|
| fresh `ObjectId`s | Mongo-assigned document ids |
| `photoIdFor` | the 16 random bytes of each photo id, in hex |
| short-id candidates | the output of `crypto.randomBytes` inside the short-id generator |
| `now` | the clock |
| `destroy` | `cloudinary.uploader.destroy`: resolves with a result string or rejects |
| `sign` | `jwt.sign` |
| `verify` | `jwt.verify` |
| `compare` | `comparePassword` |

An `AppError` is what a handler passes to `next`. `ErrorHandler.Render` is
the JSON body and status the client finally sees for it.

Modules:

- `Common`: options, JS truthiness, string prefix and substring tests, id types;
- `ErrorHandler`: `AppError`, replies, the final error handler;
- `Paging`: `parseInt(...) || default`, filter, stable descending sort, skip/limit window;
- `PublicId`: exact model of `/\/upload\/(?:v\d+\/)?(.+?)(?:\.[^.]+)?$/`;
- `IdGenerator`: base64 of random bytes, special-character removal, truncation, lower-casing, the do-while retry;
- `MemoryBookSchema` and `ContributionSchema`: the documents and their casting and validation;
- `Store`: the `Database` class;
- `MemoryBookController`, `ContributionController`, `UploadController`, `AuthController`, `AuthMiddleware`: the handlers;
- `UploadRoutes` and `ContributionRoutes`: file filters, limits, and the multer error middlewares.

## Model

| member | source | states |
|---|---|---|
| ErrorHandler.Render | src/middleware/errorHandler.ts:9-26 | Status is the error's status or 500. Code is the error's code or INTERNAL_SERVER_ERROR. Message is the error's message, or "Internal Server Error" when it is empty. `details` appears exactly when the error has some. |
| ErrorHandler.NotFound | src/middleware/errorHandler.ts:28-33 | An unknown route renders as 404 NOT_FOUND "Not Found". |
| ErrorHandler.RenderRaised | src/middleware/errorHandler.ts:15-25 | An error a handler raises with status, code and message reaches the client with exactly those, and without details. |
| ErrorHandler.RenderForeign | src/middleware/errorHandler.ts:15-16 | An error with no status and no code (a library error) is 500 INTERNAL_SERVER_ERROR. |
| Common.OrEmpty | src/controllers/contributionController.ts:102-103 | A string defaulted to "": the string itself when truthy, otherwise "". |
| Paging.QueryInt | src/controllers/memoryBookController.ts:46-47 | A query parsed with `parseInt` and falling back to d when the parse is falsy. An absent query gives d. The result is d or a non-zero parse of q. A non-zero parse is always taken. |
| Paging.DigitRun | src/controllers/memoryBookController.ts:46 | `parseInt` reads the longest run of digits: every character in the run is a digit, and the one after it is not. |
| Paging.SkipSpace | src/controllers/memoryBookController.ts:46 | `parseInt` skips leading white space, which is ECMAScript's full WhiteSpace and LineTerminator set (tab, vertical tab, form feed, the byte order mark, every Zs space separator, LF, CR, U+2028 and U+2029): the rest is a suffix of the input and does not start with such a character. |
| Paging.IsJsSpace | src/controllers/memoryBookController.ts:46 | The characters `parseInt` skips: ECMAScript's WhiteSpace and LineTerminator code points. SpaceSkipped states what skipping them means. |
| Paging.SpaceSkipped | src/controllers/memoryBookController.ts:46 | One leading white-space character, U+3000 or U+2000 as much as a blank, does not change what `parseInt` reads. |
| Paging.QueryIntIdeographicSpace | src/controllers/memoryBookController.ts:46 | `?limit=%E3%80%8010`, an ideographic space before `10`, gives limit 10. |
| Paging.ParseUnsigned | src/controllers/memoryBookController.ts:46 | Text with no decimal digit is NaN, and a number read is never negative. ParseUnsignedValue states which number is read. |
| Paging.ParseUnsignedValue | src/controllers/memoryBookController.ts:46 | After an optional `0x` or `0X` (hexadecimal) the longest run of digits is read. The result is NaN exactly when that run is empty, and otherwise it is the run's value, `DigitsValue`. |
| Paging.AccumulateSnoc | src/controllers/memoryBookController.ts:46 | Reading one more digit shifts the number read one place and adds the digit. |
| Paging.AccumulateDigits | src/controllers/memoryBookController.ts:46 | Read from zero, a string of digits gives its value, computed last digit first. |
| Paging.AccumulateStops | src/controllers/memoryBookController.ts:46 | Reading ends at the first character that is not a digit: what follows it does not matter. |
| Paging.Decimal | src/controllers/memoryBookController.ts:46 | The decimal numeral of a natural number: non-empty and made of the digits 0-9 only. |
| Paging.DigitChar | src/controllers/memoryBookController.ts:46 | The digit character of a value below ten, whose digit value is that value. |
| Paging.DecimalValue | src/controllers/memoryBookController.ts:46 | The digits of `Decimal(n)` have the value n. |
| Paging.ParseDigits | src/controllers/memoryBookController.ts:46 | A non-empty string of decimal digits is read as its value. |
| Paging.UnsignedDigits | src/controllers/memoryBookController.ts:46 | The same, before the sign: the digits are read in full, as decimal. |
| Paging.DigitsUnprefixed | src/controllers/memoryBookController.ts:46 | A string of decimal digits has no `0x` prefix: it is read in radix 10 from its first character. |
| Paging.DigitNotSpace | src/controllers/memoryBookController.ts:46 | A digit is neither white space nor a sign. |
| Paging.DigitRunAll | src/controllers/memoryBookController.ts:46 | In a string made only of digits, the digit run is the whole string. |
| Paging.ParseDecimal | src/controllers/memoryBookController.ts:46 | `parseInt` reads back every decimal numeral: `parseInt(String(n))` is n for every n ≥ 0. |
| Paging.QueryDecimal | src/controllers/memoryBookController.ts:46-47 | For every n > 0, `?limit=n` (or `?offset=n`) is taken as n. |
| Paging.ParseSigned | src/controllers/memoryBookController.ts:46 | An optional sign and the digits. Text with no decimal digit is NaN, and a negative number needs a leading `-`. |
| Paging.ParseInt | src/controllers/memoryBookController.ts:46-47 | `parseInt(s)` with no radix: text without a decimal digit is NaN, and a negative result needs a `-` in the text. |
| Paging.ParseIntSign | src/controllers/memoryBookController.ts:46-47 | A leading `-` negates the number that follows it, and NaN stays NaN. |
| Paging.SignedMinus | src/controllers/memoryBookController.ts:46 | After a `-`, the digits' value is negated. |
| Paging.SignedUnsigned | src/controllers/memoryBookController.ts:46 | With no sign, the digits' value is the number. |
| Paging.Unspaced | src/controllers/memoryBookController.ts:46 | Text that starts with no white space is read as it stands. |
| Paging.ParseIntHex | src/controllers/memoryBookController.ts:46 | `parseInt('0x1f')` is 31. |
| Paging.UndefinedIsNaN | src/controllers/memoryBookController.ts:46 | `parseInt(undefined)` reads the text "undefined" and is NaN. |
| Paging.QueryIntDecimal | src/controllers/memoryBookController.ts:46 | `?limit=10` gives limit 10. |
| Paging.ParseIntZero | src/controllers/memoryBookController.ts:46 | "0" parses to 0. |
| Paging.QueryIntZero | src/controllers/memoryBookController.ts:46 | `?limit=0` falls back to the default, because 0 is falsy. |
| Paging.QueryIntText | src/controllers/contributionController.ts:136 | A non-numeric limit falls back to the default. |
| Paging.Filter | src/controllers/memoryBookController.ts:59 | `find({...})` keeps exactly the matching documents, and no more of them than there are. |
| Paging.FilterAll | src/controllers/memoryBookController.ts:59 | A filter that every document passes keeps the collection as it is. |
| Paging.FilterAppend | src/controllers/memoryBookController.ts:59 | Filtering distributes over concatenation. |
| Paging.InsertDesc | src/controllers/memoryBookController.ts:60 | Inserting into the sorted list adds exactly that one element. |
| Paging.SortDesc | src/controllers/memoryBookController.ts:60 | `sort({createdAt: -1})` returns a permutation of its input. |
| Paging.InsertDescSorted | src/controllers/memoryBookController.ts:60 | Insertion keeps the list sorted newest first. |
| Paging.SortDescSorted | src/controllers/memoryBookController.ts:60 | The sort result is sorted newest first and holds exactly the input's elements. |
| Paging.Window | src/controllers/memoryBookController.ts:61-62 | `skip(o).limit(l)`: element k of the result is element o+k of the input. The length is 0 past the end, the rest of the input when the limit is 0 or reaches the end, and l otherwise. |
| Paging.WindowWithin | src/controllers/memoryBookController.ts:61-62 | A page only holds documents of the query. |
| Paging.WindowSorted | src/controllers/memoryBookController.ts:60-62 | A page of a sorted result is sorted. |
| Paging.WindowExample | src/controllers/contributionController.ts:151-152 | Skipping 20 of 25 with limit 10 returns the last 5. |
| PublicId.DigitsFrom | src/controllers/memoryBookController.ts:14 | `\d+` starting at i: the longest run of digits. |
| PublicId.VersionEnd | src/controllers/memoryBookController.ts:14 | `v\d+\/` spans at least three characters. |
| PublicId.LazyFrom | src/controllers/memoryBookController.ts:14 | The lazy group `(.+?)` followed by `(?:\.[^.]+)?$` captures the shortest prefix that works, of at least k characters and with no line terminator. |
| PublicId.Tail | src/controllers/memoryBookController.ts:14 | The capture is a non-empty prefix of what follows `/upload/` or the version segment. |
| PublicId.AfterUpload | src/controllers/memoryBookController.ts:14 | The version segment is optional. When it is present it is tried first. |
| PublicId.MatchAt | src/controllers/memoryBookController.ts:14 | A match at position p needs `/upload/` at p. |
| PublicId.Search | src/controllers/memoryBookController.ts:14 | `String.match` tries positions left to right; a match needs `/upload/` at or after p. |
| PublicId.ExtractPublicId | src/controllers/uploadController.ts:7-16 | A public id is found only in a URL that contains `/upload/`, and it is never empty. |
| PublicId.LastDot | src/controllers/memoryBookController.ts:14 | The last dot of a string, or None when it has none. |
| PublicId.LazyFromStrips | src/controllers/memoryBookController.ts:14 | The lazy capture equals the text without its last extension. |
| PublicId.TailStrips | src/controllers/memoryBookController.ts:14 | The capture after `/upload/` is the rest with its extension stripped. |
| PublicId.StripNamedExtension | src/controllers/memoryBookController.ts:14 | Stripping `id.ext` gives id when ext has no dot. |
| PublicId.HostWithoutUpload | src/controllers/memoryBookController.ts:10-11 | A host part with no "/u" pair and no trailing slash holds no `/upload/`. |
| PublicId.SearchSkips | src/controllers/memoryBookController.ts:14 | The search passes over a prefix without `/upload/`. |
| PublicId.LeftmostUpload | src/controllers/memoryBookController.ts:14 | The first `/upload/` decides the public id. |
| PublicId.NoTerminatorIn | src/controllers/memoryBookController.ts:14 | `id.ext` has no line terminator when neither part has one. |
| PublicId.VersionedUrl | src/controllers/memoryBookController.ts:10 | `…/upload/v<digits>/<id>.<ext>` gives `<id>`. |
| PublicId.StepDigits | src/controllers/memoryBookController.ts:14 | The digit run from any point inside the version digits ends where they end. |
| PublicId.UnversionedUrl | src/controllers/memoryBookController.ts:11 | `…/upload/<id>.<ext>` gives `<id>` when the id does not start with "v". |
| PublicId.CloudinaryExamples | src/controllers/uploadController.ts:9-10 | The versioned and the unversioned address of `remi/abc.jpg` both give `remi/abc`. |
| PublicId.NoUploadNoId | src/controllers/memoryBookController.ts:14-15 | A URL without `/upload/` gives null. |
| IdGenerator.SymInAlphabet | src/utils/idGenerator.ts:10 | Every base64 digit is a letter, a digit, `+` or `/`. |
| IdGenerator.Encode | src/utils/idGenerator.ts:10 | `toString('base64')` has 4 characters per started group of 3 bytes. |
| IdGenerator.EncodeHead | src/utils/idGenerator.ts:10 | Each full group of three bytes gives four alphabet characters, followed by the encoding of the rest. |
| IdGenerator.EncodeSymbols | src/utils/idGenerator.ts:10 | Base64 output is alphabet characters and `=` only. |
| IdGenerator.EncodePadding | src/utils/idGenerator.ts:10 | A final group of two bytes ends in exactly one `=`. |
| IdGenerator.RemoveSpecials | src/utils/idGenerator.ts:13 | `replace(/[+/=]/g, '')` leaves no `+`, `/` or `=`, and adds no characters. A text with none of them is kept as it is. |
| IdGenerator.RemoveSpecialsChar | src/utils/idGenerator.ts:13 | One character is dropped iff it is `+`, `/` or `=`. With RemoveSpecialsAppend, every other character is kept, in order. |
| IdGenerator.RemoveSpecialsAppend | src/utils/idGenerator.ts:13 | Removal distributes over concatenation. |
| IdGenerator.Prefix12 | src/utils/idGenerator.ts:14 | `substring(0, 12)`: a prefix of at most 12 characters, the whole string when it is short. |
| IdGenerator.Lower | src/utils/idGenerator.ts:15 | `toLowerCase` maps each character, and keeps the length. |
| IdGenerator.GenerateShortId | src/utils/idGenerator.ts:7-16 | A short id has at most 12 characters, each in [a-z0-9]. It is the first 12 (or fewer) characters that survive the removal, lower-cased, in order. |
| IdGenerator.EightBytes | src/utils/idGenerator.ts:9-15 | Eight bytes encode to 12 characters ending in `=`, so the id has at most 11 characters and the truncation never cuts. |
| IdGenerator.EncodeAllOnes | src/utils/idGenerator.ts:10 | Three 0xFF bytes encode to `////`. |
| IdGenerator.ShortIdMayBeOneCharacter | src/utils/idGenerator.ts:3-6 | Eight 0xFF bytes give the one-character id "8", against the documented 8-12 characters. |
| IdGenerator.Hex | src/utils/idGenerator.ts:3-6 | Each byte becomes two lower-case hexadecimal digits, so the text has twice as many characters as bytes, all in [a-z0-9]. |
| IdGenerator.GenerateShortIdHex | src/utils/idGenerator.ts:3-6 | The corrected short id: at most 12 characters of [a-z0-9], and exactly 12 from six bytes on, so eight bytes always meet the documented 8-12. |
| IdGenerator.GeneratePublicIds | src/utils/idGenerator.ts:21-32 | The do-while returns the first pair of draws that differ; every earlier round collided. |
| IdGenerator.PublicIdsShape | src/utils/idGenerator.ts:21-32 | Both returned ids are short ids: at most 12 characters of [a-z0-9]. |
| MemoryBookSchema.ParseBookType | src/models/MemoryBook.ts:59-63 | The `type` enum: exactly 'Lớp học', 'Phòng ban', 'Nhóm' cast. |
| MemoryBookSchema.BookTypeRoundTrip | src/models/MemoryBook.ts:27 | Every book type casts from its own name. |
| MemoryBookSchema.ParseLayout | src/models/MemoryBook.ts:49-53 | The `layout` enum: exactly the eight layout names cast. |
| MemoryBookSchema.LayoutRoundTrip | src/models/MemoryBook.ts:10-18 | Every layout casts from its own name. |
| MemoryBookSchema.CastPhoto | src/models/MemoryBook.ts:39-44 | A photo casts iff `id` and `url` are non-empty. `note` and `prompt` default to "". |
| MemoryBookSchema.CastPhotos | src/models/MemoryBook.ts:48 | An array of photos casts iff each one does, element by element. |
| MemoryBookSchema.CastPage | src/models/MemoryBook.ts:46-55 | A page casts iff `id` is non-empty, `layout` is in the enum and every photo casts. `note` defaults to "". |
| MemoryBookSchema.CastPages | src/models/MemoryBook.ts:64 | The `pages` array casts iff each page does. The result is well formed. |
| MemoryBookSchema.CastRawPhotos | src/models/MemoryBook.ts:39-44 | Stored photos sent back cast to themselves. |
| MemoryBookSchema.CastRawPage | src/models/MemoryBook.ts:46-55 | A stored page sent back casts to itself. |
| MemoryBookSchema.CastRawPages | src/models/MemoryBook.ts:46-55 | Stored pages sent back cast to themselves. |
| MemoryBookSchema.NewBook | src/models/MemoryBook.ts:57-69 | A new book validates iff name, both keys and a listed type are given. It starts with no pages, and both timestamps are now. |
| MemoryBookSchema.Touch | src/models/MemoryBook.ts:72-75 | The pre-save hook sets `updatedAt` to now and nothing else. |
| ContributionSchema.NewContribution | src/models/Contribution.ts:12-24 | A contribution validates iff its book id, `photoId` and `url` are given. `note` and `prompt` default to "", and `contributedAt` to now. |
| ContributionSchema.ContributionDefaults | src/models/Contribution.ts:21-23 | Omitted optional fields take their defaults. |
| Store.DuplicateKeyError | src/controllers/memoryBookController.ts:198 | A unique-index clash is a Mongo error with code 11000 and no status of its own. |
| Store.ValidationFailure | src/controllers/memoryBookController.ts:193 | A failed validation carries no status or code of its own. |
| Store.NegativeSkipError | src/controllers/memoryBookController.ts:61 | A negative `skip` is refused by the server and renders as 500 INTERNAL_SERVER_ERROR. |
| Store.Find | src/controllers/memoryBookController.ts:98 | `findOne`: the first matching document, or none when nothing matches. |
| Store.Count | src/controllers/memoryBookController.ts:64 | `countDocuments`, counted document by document, is at most the collection's size, equals the number of documents `find` returns for the same filter, and is 0 iff no document matches. |
| Store.AppendKeepsUnique | src/models/MemoryBook.ts:65-66 | Adding a book that clashes with no key keeps the keys unique. |
| Store.ShareIdFindsItsBook | src/models/MemoryBook.ts:65 | Because share ids are unique, a book's share id finds that book. |
| Store.FilterKeepsUnique | src/controllers/memoryBookController.ts:301 | Removing books keeps the keys unique. |
| Store.IdIsNot | src/controllers/memoryBookController.ts:301 | The books `findByIdAndDelete(id)` keeps are those with another id. |
| Store.FilterKeepsConsistent | src/controllers/memoryBookController.ts:301 | Removing books keeps the database consistent. |
| Store.Database.constructor | src/models/MemoryBook.ts:77 | An empty database is valid. |
| Store.Database.InsertBook | src/controllers/memoryBookController.ts:193 | `save()` of a new book fails with E11000 iff a key clashes, and then stores nothing. Otherwise the book is appended. |
| Store.Database.ReplaceBook | src/controllers/memoryBookController.ts:247 | `save()` of a loaded book replaces that one book. |
| Store.Database.DeleteBook | src/controllers/memoryBookController.ts:301 | `findByIdAndDelete`: exactly the books with that id are removed. |
| Store.Consistent | src/models/MemoryBook.ts:57-69 | The database invariant: unique ids, share ids and contribute ids, well-formed books whose two keys differ, valid contributions with unique ids, and unique user e-mails. |
| Store.Database.InsertContribution | src/controllers/contributionController.ts:106 | `save()` of a contribution fails with E11000 iff its id is taken. Otherwise it is appended. |
| Store.Database.InsertUser | src/controllers/authController.ts:49-50 | `save()` of a new user appends it. |
| MemoryBookController.ExtractPublicIdGuarded | src/controllers/memoryBookController.ts:8-22 | Only an `http` address can give a public id; for one, the result is the regular expression's capture, never empty. |
| MemoryBookController.LegacyPathHasNoId | src/controllers/memoryBookController.ts:12-18 | `/api/images/…` paths give null. |
| MemoryBookController.DemoHostWithoutUpload | src/controllers/memoryBookController.ts:10 | The Cloudinary host part holds no `/upload/`. |
| MemoryBookController.DemoAddresses | src/controllers/memoryBookController.ts:10-11 | The versioned and the unversioned delivery URL of `remi/abc.jpg` both give `remi/abc`. |
| MemoryBookController.Items | src/controllers/memoryBookController.ts:67-75 | Each listing item is the book's view without `updatedAt`, in order. |
| MemoryBookController.ListMemoryBooks | src/controllers/memoryBookController.ts:40-86 | No user gives 401 UNAUTHORIZED. A negative offset gives a server error. Otherwise the reply is 200 with the page, the caller's total, and the limit and offset as parsed (defaults 20 and 0). |
| MemoryBookController.OwnedNewestFirst | src/controllers/memoryBookController.ts:58-60 | `find({userId}).sort({createdAt: -1})`; its contract is OwnedNewestFirstSpec. |
| MemoryBookController.OwnedNewestFirstSpec | src/controllers/memoryBookController.ts:58-64 | The books listed are exactly the caller's, newest first, and as many as `countDocuments` counts. |
| MemoryBookController.ListingIsOwnedWindow | src/controllers/memoryBookController.ts:58-82 | The listing is the slice [offset, offset + abs(limit)) of the caller's books, newest first, and `total` is their number. |
| MemoryBookController.GetMemoryBookById | src/controllers/memoryBookController.ts:89-111 | 404 MEMORY_BOOK_NOT_FOUND iff the caller owns no book with that id. Otherwise 200 with that book's full view. |
| MemoryBookController.ForeignBookLooksMissing | src/controllers/memoryBookController.ts:98-105 | Someone else's book gets the same answer as a book that does not exist. |
| MemoryBookController.GetMemoryBookByShareId | src/controllers/memoryBookController.ts:114-134 | 404 SHARE_NOT_FOUND iff no book has the share id. Otherwise 200 with that book's full view, whatever the caller. |
| MemoryBookController.GetMemoryBookByContributeId | src/controllers/memoryBookController.ts:137-162 | 404 CONTRIBUTE_NOT_FOUND iff no book has the contribute id. Otherwise 200 with its id, name, type and contribute id. |
| MemoryBookController.ContributeViewHidesContent | src/controllers/memoryBookController.ts:153-158 | The contribute view does not change with the pages, the share id, the owner or the timestamps. |
| MemoryBookController.FindSameKeys | src/controllers/memoryBookController.ts:234 | Books that agree on the filter are found at the same position. |
| MemoryBookController.TryCreate | src/controllers/memoryBookController.ts:184-193 | One save either fails validation, or clashes (E11000), or stores exactly the new book. |
| MemoryBookController.CreateStep | src/controllers/memoryBookController.ts:165-221 | A missing name or type gives 400 VALIDATION_ERROR. An invalid type fails validation. One E11000 is retried once with the second ids. Success is 201 with the caller's new, empty book appended under the first or the second ids. A failed attempt stores nothing. |
| MemoryBookController.SecondDuplicateIsServerError | src/controllers/memoryBookController.ts:196-216 | If the retry clashes too, the client gets 500 INTERNAL_SERVER_ERROR; there is no third attempt. |
| MemoryBookController.CreateMemoryBook | src/controllers/memoryBookController.ts:165-221 | The handler's reply and books are those of `CreateStep`; users and contributions are unchanged. |
| MemoryBookController.Updated | src/controllers/memoryBookController.ts:243-247 | A body field may be left out, an explicit `null` or a value. A left-out field keeps the old value, while `null` and values are assigned, and save touches `updatedAt`. Every other field is kept. The save validates iff the name is left out or a non-empty string, the type is left out or casts, and given pages cast. A `null` name or type fails validation. |
| MemoryBookController.UpdateStep | src/controllers/memoryBookController.ts:223-253 | 404 if the caller owns no such book. For the book found, a valid update gives 200 with the updated view and replaces only that book; a failed validation (including a `null` name or type) is passed on and changes nothing. |
| MemoryBookController.UpdateSucceeds | src/controllers/memoryBookController.ts:230-252 | With unique ids, the owner's valid update of book k answers 200 with the new view and stores it at k. |
| MemoryBookController.UpdateKeepsIdentity | src/controllers/memoryBookController.ts:243-245 | An update never changes the id, the owner, the share and contribute ids or `createdAt`; other books are untouched. |
| MemoryBookController.UpdateWithOwnPages | src/controllers/memoryBookController.ts:245-247 | Sending back the book's own pages changes only `updatedAt`. |
| MemoryBookController.ExplicitNullFails | src/controllers/memoryBookController.ts:243-247 | `{"name": null}` or `{"type": null}` passes the `!== undefined` test, fails the `required` validation and renders as 500. The stored books are unchanged. |
| MemoryBookController.NullPagesEmpty | src/controllers/memoryBookController.ts:245 | `{"pages": null}` on its own leaves the book with no pages and a new `updatedAt`. |
| MemoryBookController.UpdateMemoryBook | src/controllers/memoryBookController.ts:223-253 | The handler's reply and books are those of `UpdateStep`. |
| MemoryBookController.PhotoUrls | src/controllers/memoryBookController.ts:277-281 | Exactly the non-empty photo URLs. |
| MemoryBookController.PhotoUrlsAppend | src/controllers/memoryBookController.ts:277-281 | Collection distributes over concatenation of photo lists. |
| MemoryBookController.PhotoUrlsSingle | src/controllers/memoryBookController.ts:278-280 | One photo contributes its URL iff the URL is non-empty. |
| MemoryBookController.PhotoUrlsAll | src/controllers/memoryBookController.ts:277-281 | When every URL is non-empty, there is one URL per photo. |
| MemoryBookController.PageUrls | src/controllers/memoryBookController.ts:275-282 | Exactly the non-empty photo URLs of all pages. |
| MemoryBookController.PageUrlsSnoc | src/controllers/memoryBookController.ts:275-282 | The last page's URLs come after those of the pages before it. |
| MemoryBookController.PageUrlsAppend | src/controllers/memoryBookController.ts:275-282 | Collection distributes over concatenation of page lists. |
| MemoryBookController.PageUrlsSingle | src/controllers/memoryBookController.ts:276-281 | One page contributes its photos' URLs. |
| MemoryBookController.PageUrlsCount | src/controllers/memoryBookController.ts:275-282 | When every photo has a URL, there is one URL per photo of the book. |
| MemoryBookController.CollectImageUrls | src/controllers/memoryBookController.ts:275-282 | The nested loops collect `PageUrls`, page by page, photo by photo. |
| MemoryBookController.DestroyTargets | src/controllers/memoryBookController.ts:287-291 | Destroy is called only with public ids that the guarded extraction finds in the URLs, and with every id it finds. |
| MemoryBookController.DestroyTargetsAppend | src/controllers/memoryBookController.ts:285-291 | The calls for two lists of URLs are those of the first list, then those of the second. |
| MemoryBookController.DestroyTargetsSingle | src/controllers/memoryBookController.ts:287-291 | One URL gives one destroy call, on its public id, iff an id is extracted. |
| MemoryBookController.DestroyTargetsAll | src/controllers/memoryBookController.ts:285-291 | When every URL has a public id, there is one destroy call per URL. |
| MemoryBookController.EveryPhotoDestroyed | src/controllers/memoryBookController.ts:275-297 | When every photo has a Cloudinary URL, there are as many destroy calls as photos; two pages of two such photos give four. |
| MemoryBookController.FailedUrls | src/controllers/memoryBookController.ts:290-294 | The logged failures are exactly the URLs whose destroy call was made and rejected. |
| MemoryBookController.FailedUrlsAppend | src/controllers/memoryBookController.ts:285-294 | The failures for two lists of URLs are those of the first, then those of the second. |
| MemoryBookController.FailedUrlsSingle | src/controllers/memoryBookController.ts:287-294 | One URL is logged iff it has a public id whose destroy call rejects. |
| MemoryBookController.LegacyUrlsNotDestroyed | src/controllers/memoryBookController.ts:12-18 | Local `/api/images/` paths, which contributions still record, are never sent to Cloudinary. |
| MemoryBookController.DestroyImages | src/controllers/memoryBookController.ts:285-298 | The destroy loop calls `DestroyTargets` and records `FailedUrls`. |
| MemoryBookController.DeleteMemoryBook | src/controllers/memoryBookController.ts:256-309 | A book the caller does not own gives 404, with nothing destroyed or removed. Otherwise every image of the book is asked to be destroyed (failures are ignored), the book is removed and the reply is 200. Contributions stay. |
| MemoryBookController.DeleteRemovesOnlyThatBook | src/controllers/memoryBookController.ts:301 | With unique ids the delete removes exactly that one book. |
| MemoryBookController.OthersKept | src/controllers/memoryBookController.ts:301 | With unique ids, the books before and after the deleted one all stay. |
| ContributionController.NotAnImage | src/controllers/contributionController.ts:31 | The filter's refusal is a plain error "Only image files are allowed". |
| ContributionController.FileFilter | src/controllers/contributionController.ts:27-33 | A file passes iff its mime type starts with "image/". |
| ContributionController.Normalize | src/controllers/contributionController.ts:52-53 | An array is kept as is, a non-empty scalar becomes a one-element array, and an absent or empty field becomes []. |
| ContributionController.NormalizeScalarAsList | src/controllers/contributionController.ts:52-53 | A single note reads as a one-element list. |
| ContributionController.Validate | src/controllers/contributionController.ts:55-92 | Checks run in source order: unknown book 404, then no files, then more than 10, then notes, then prompts mismatched (length > 0 and ≠ file count). It passes iff none applies. |
| ContributionController.UnknownBookFirst | src/controllers/contributionController.ts:56-62 | For an unknown book the files and notes do not matter. |
| ContributionController.At | src/controllers/contributionController.ts:102-103 | Element i, or "" for an index that is out of range. |
| ContributionController.Record | src/controllers/contributionController.ts:96-105 | File i becomes a contribution with url `/api/images/<filename>`, note i and prompt i (or ""), and the time now. |
| ContributionController.Records | src/controllers/contributionController.ts:95-105 | One record per file, in file order. |
| ContributionController.SaveAll | src/controllers/contributionController.ts:95-108 | Saving only appends to the contributions, and only records of this request. |
| ContributionController.Values | src/controllers/contributionController.ts:95-108 | The records' values, in order. |
| ContributionController.SaveOne | src/controllers/contributionController.ts:106 | One `save()`: a document that fails validation or reuses a stored id is rejected, keeping the first rejection; any other is appended. |
| ContributionController.SaveAllAppends | src/controllers/contributionController.ts:95-108 | With fresh ids every record is saved, in order, without error. |
| ContributionController.Views | src/controllers/contributionController.ts:110-117 | Each saved contribution is echoed as its view, in order. |
| ContributionController.SubmitStep | src/controllers/contributionController.ts:44-126 | A refused submission stores nothing. Stored records all belong to this existing book. An accepted one stores one record per file, in file order, and echoes them with 200. |
| ContributionController.SavedRecords | src/controllers/contributionController.ts:98-99 | Saved contributions point at the submitted book. |
| ContributionController.SaveAllComplete | src/controllers/contributionController.ts:95-108 | A save without error stored every record, in order. |
| ContributionController.AcceptedSubmission | src/controllers/contributionController.ts:94-122 | A valid submission with fresh ids replies 200 "Contributions submitted successfully" and appends exactly its records. |
| ContributionController.SaveEach | src/controllers/contributionController.ts:95-108 | The save loop computes `SaveAll` on the database. |
| ContributionController.SubmitContributions | src/controllers/contributionController.ts:44-126 | The handler's reply and contributions are those of `SubmitStep`. |
| ContributionController.BookContributions | src/controllers/contributionController.ts:149-150 | `find({memoryBookId}).sort({contributedAt: -1})`; its contract is BookContributionsSpec. |
| ContributionController.BookContributionsSpec | src/controllers/contributionController.ts:148-155 | The contributions listed are exactly the book's, newest first, and as many as `countDocuments` counts. |
| ContributionController.GetContributions | src/controllers/contributionController.ts:129-175 | Unknown book gives 404. A negative offset gives a server error. Otherwise 200 with the page, the total, and the limit and offset (defaults 50 and 0). |
| ContributionController.ContributionListing | src/controllers/contributionController.ts:148-171 | Every item shown is a stored contribution of this book, the items are newest first, and there are never more of them than `total`. |
| ContributionController.DefaultContributionWindow | src/controllers/contributionController.ts:136-137 | With no query the first 50 are shown, with offset 0. |
| UploadController.FirstNonEmpty | src/controllers/uploadController.ts:34 | The first non-empty of three strings, or "" when all are empty. |
| UploadController.UploadImage | src/controllers/uploadController.ts:19-58 | No file gives 400. No URL gives 500 UPLOAD_ERROR. Otherwise 200 with the first URL, the stored name or the public id, the file's metadata, a fresh photo id and the time. |
| UploadController.UploadPrefersPath | src/controllers/uploadController.ts:34 | `path` wins. |
| UploadController.GetImage | src/controllers/uploadController.ts:62-79 | Every name gives 404 IMAGE_NOT_FOUND. |
| UploadController.GetImageIgnoresName | src/controllers/uploadController.ts:68-75 | The answer does not depend on the name. |
| UploadController.DeleteTarget | src/controllers/uploadController.ts:92-104 | A name not starting with "http" is used as the public id. A URL gives the extracted id. |
| UploadController.DeleteImage | src/controllers/uploadController.ts:82-130 | A URL with no id gives 400 INVALID_URL. A rejection gives 500 DELETE_ERROR. "not found" gives 404. Otherwise 200 with Cloudinary's result. |
| UploadController.InvalidUrlNeverDestroys | src/controllers/uploadController.ts:95-102 | A bad URL is refused before Cloudinary is called. |
| UploadController.DeleteAsksOnlyForTarget | src/controllers/uploadController.ts:107-120 | Only the destroy call on the target matters. |
| UploadController.UnguardedReadsRelativePath | src/controllers/uploadController.ts:7-16 | This controller's extraction, unlike the guarded one, reads an id out of a relative path. |
| UploadRoutes.NotAllowed | src/routes/upload.ts:34 | The refusal message of the image filter. |
| UploadRoutes.FileFilter | src/routes/upload.ts:28-36 | A file passes iff its mime type is one of the five listed. |
| UploadRoutes.FilterStricterThanContributions | src/routes/upload.ts:30-31 | Whatever this filter accepts the contribution filter accepts. `image/svg+xml` shows the converse fails. |
| UploadRoutes.SizeLimit | src/routes/upload.ts:41-43 | Files over 10 MiB raise LIMIT_FILE_SIZE. |
| UploadRoutes.MissingMessageTypeError | src/routes/upload.ts:58 | The TypeError thrown by reading a missing message renders as 500. |
| UploadRoutes.HandleMulterError | src/routes/upload.ts:47-67 | LIMIT_FILE_SIZE gives 400 FILE_TOO_LARGE. A message naming a wrong type gives 400 INVALID_FILE_TYPE. A missing message throws. Anything else is passed on. |
| UploadRoutes.FilterRejectionIsInvalidType | src/routes/upload.ts:58-65 | Either filter's refusal becomes INVALID_FILE_TYPE. |
| UploadRoutes.OversizeIsTooLarge | src/routes/upload.ts:48-57 | An oversize file becomes FILE_TOO_LARGE. |
| UploadRoutes.MissingMessageIsServerError | src/routes/upload.ts:58 | An error without a message turns into a 500 TypeError. |
| UploadRoutes.NotNamingWrongType | src/routes/upload.ts:58 | A message in which neither "On" nor "Ch" occurs includes neither 'Only image files' nor 'Chỉ chấp nhận'. |
| UploadRoutes.CleanForwarded | src/routes/upload.ts:47-66 | An error that is no MulterError and whose message has neither opening is passed on unchanged. |
| UploadRoutes.ControllerErrorsForwarded | src/routes/upload.ts:69-73 | The middleware is mounted after the routes, and it passes on unchanged the errors that `uploadImage` and `getImage` raise. |
| UploadRoutes.DeleteErrorsForwarded | src/routes/upload.ts:71-73 | Likewise for the 400, 404 and 500 errors of `deleteImage`. |
| ContributionRoutes.ArrayLimit | src/routes/contributions.ts:41 | `array('files', 10)` refuses a part under another field or past the tenth as LIMIT_UNEXPECTED_FILE. Otherwise it lets them through. |
| ContributionRoutes.HandleMulterError | src/routes/contributions.ts:9-37 | LIMIT_FILE_SIZE gives FILE_TOO_LARGE. LIMIT_FILE_COUNT gives TOO_MANY_FILES. A truthy message naming a wrong type gives INVALID_FILE_TYPE. The rest is passed on unchanged. |
| ContributionRoutes.MissingMessageForwarded | src/routes/contributions.ts:28-36 | A message-less error is passed on. |
| ContributionRoutes.NotAnImageIsInvalidType | src/routes/contributions.ts:28-35 | The contribution filter's refusal becomes INVALID_FILE_TYPE. |
| ContributionRoutes.AtMostTenReachSubmit | src/routes/contributions.ts:39-41 | At most ten files reach the handler, so its TOO_MANY_FILES check never fires. |
| ContributionRoutes.EleventhFileIsServerError | src/routes/contributions.ts:19-26 | As written: an 11th file is forwarded and rendered as 500. |
| ContributionRoutes.UnexpectedFieldForwarded | src/routes/contributions.ts:10-36 | LIMIT_UNEXPECTED_FILE matches none of the branches. |
| ContributionRoutes.HandleMulterErrorIntended | src/routes/contributions.ts:19-26 | Corrected: over-cap files are TOO_MANY_FILES; everything else as written. |
| ContributionRoutes.TooManyFilesIntended | src/routes/contributions.ts:19-26 | Corrected: more than 10 files gives 400 TOO_MANY_FILES. |
| ContributionRoutes.OverCapNamesField | src/routes/contributions.ts:41 | The refused part is one of the `files` parts. |
| AuthController.RegisterStep | src/controllers/authController.ts:16-69 | Missing fields give 400. A string password under six characters gives 400. A taken email gives 409. Otherwise 201 with the new user appended and a token for its id. |
| AuthController.RegisterAccepts | src/controllers/authController.ts:25-50 | Complete input with a new email always registers. |
| AuthController.RegisterHidesPassword | src/controllers/authController.ts:55-65 | The reply does not depend on the password. |
| AuthController.Register | src/controllers/authController.ts:16-69 | The handler's reply and users are those of `RegisterStep`. |
| AuthController.Login | src/controllers/authController.ts:72-123 | Missing fields give 400. An unknown email or a wrong password gives 401 INVALID_CREDENTIALS. A known email with the right password gives 200 with that user and a token for its id, and that is the only way to get 200. |
| AuthController.LoginSucceeds | src/controllers/authController.ts:98-119 | With unique e-mails, user k's e-mail and password log in as user k. |
| AuthController.NoEnumeration | src/controllers/authController.ts:89-104 | An unknown email and a wrong password are indistinguishable. |
| AuthController.TokenSubject | src/controllers/authController.ts:11-13 | Login right after registration issues the same token, for the new id. |
| AuthController.GetCurrentUser | src/controllers/authController.ts:126-145 | 200 with the attached user's id, email and name. |
| AuthMiddleware.TokenOf | src/middleware/auth.ts:28 | The header is "Bearer " followed by the token. |
| AuthMiddleware.Decide | src/middleware/auth.ts:12-56 | No "Bearer " header gives UNAUTHORIZED. A token that fails verification gives INVALID_TOKEN. No user for the claim gives USER_NOT_FOUND. A verified token whose claimed id is stored passes, and a pass carries the stored user whose id the token claims. |
| AuthMiddleware.ValidTokenPasses | src/middleware/auth.ts:28-52 | With unique ids, "Bearer " and a token verifying to user k's id attach user k. |
| AuthMiddleware.OnlyTokenMatters | src/middleware/auth.ts:28-33 | Only what follows "Bearer " is verified. |
| AuthMiddleware.SchemeIsExact | src/middleware/auth.ts:21 | "bearer …" and "Bearer" alone are refused. |
| AuthMiddleware.Request.constructor | src/middleware/auth.ts:19 | A request starts with its header and no user. |
| AuthMiddleware.Request.Authenticate | src/middleware/auth.ts:12-56 | `req.user` is set exactly when the decision passes. Otherwise `next` gets the decision's error and the request is unchanged. |

## Left out

- Multer's disk storage engine, the one both upload routes use, and its `uploads` directory are not modelled. The Cloudinary storage engine in src/config/cloudinary.ts is mounted on no route. The file a handler sees is an input.
- Multer is only modelled for what the routes rely on: the 10 MiB limit, the file filter, and the one-field `array` cap. It is taken as documented in multer's own source: a part over `maxCount` is LIMIT_UNEXPECTED_FILE.
- Mongo casting of ids (CastError, the ObjectId format) is not modelled; ids are strings compared for equality.
- JavaScript's null and undefined are one `None`, except for the update body's top-level `name`, `type` and `pages`. There `MemoryBookController.Field` tells a left-out field from an explicit `null`. Inside a given `pages` array, a page or photo `note: null` or a photo `prompt: null` is read as absent, so MemoryBookSchema.CastPhoto and MemoryBookSchema.CastPage store `''` for it. Mongoose applies a default only to `undefined`, so the source stores and echoes `null` there.
- MemoryBookController.Updated: the source stores `pages: null` as a null page list. The model has no null page list and stores an empty one. The reply then shows `pages: []` where the source shows `pages: null`. A later delete of that book would throw in the source on `pages.forEach` (500), while the model deletes it.
- `parseInt` is modelled with its `0x`/`0X` hexadecimal prefix. Floating-point precision and the size of numbers are not modelled: the value is an unbounded integer. A negative limit acts as its absolute value, as in MongoDB.
- Every `new Date()` inside one request reads one clock value, `now`.
- `Promise.all` runs its saves in file order, one after the other. Concurrency is not modelled.
- src/models/User.ts is not part of this model: password hashing, `comparePassword` and e-mail normalisation are oracles or left as given.
- AuthController.Register: user-schema validation beyond the handler's own checks is not modelled, and `password.length` counts code points rather than UTF-16 units.
- AuthController.RegisterStep: the body's email, password and name are modelled as strings (or absent), though `express.json()` may deliver any JSON value. A truthy password without a `length`, such as the number `123`, makes `password.length` undefined, so `undefined < 6` is false and the source skips the six-character check and goes on to `findOne` and `save`, with whatever the user schema, which is not part of this model, then makes of it. The handler AuthController.Register inherits this. The same password reaches `comparePassword` in `login` (AuthController.Login), whose bcrypt comparison is a parameter here.
- The memory-book router mounts no `authenticate`, so the caller is an input to those handlers. Only the listing checks for a missing caller, and the model takes a caller where the source takes `req.user` for granted.
- MemoryBookSchema.MemoryBook stores `userId` although the schema does not declare it. With Mongoose's strict mode the field is dropped on save, which would break every owner query; the model treats it as stored.
- Mongoose's validation messages are one `ValidationFailure`. Their wording (and their 500 rendering) is not modelled further.
- Store.NegativeSkipError: the server's refusal of a negative `skip` is one fixed error, not the driver's exact message.
- The database keeps documents in insertion order. The stable sort keeps ties in that order; MongoDB leaves the order of ties unspecified.
- IdGenerator.GeneratePublicIds takes its candidate short ids as an input sequence, because the random loop need not terminate. It reports `None` when the sequence runs out.
- IdGenerator.Encode is not paired with a base64 decoder.
- The Cloudinary SDK, `jwt.sign`, `jwt.verify` and bcrypt are parameters. Their internals are not modelled.
- src/index.ts, src/routes/memoryBooks.ts, src/routes/auth.ts and src/config/cloudinary.ts are wiring: route mounting, CORS, the database connection and configuration.
- `console.error` logging of failed Cloudinary deletions becomes the returned list of failed URLs.
- Paging.QueryInt: a query value is absent or one string. A repeated or nested parameter, which Express delivers as an array or an object (`?limit=1&limit=2` reaches `parseInt` as "1,2"), is not modelled.
- UploadController.UploadImage: `file.originalname || req.file.originalname` reads the same object twice, so it is one field.
- MemoryBookController.CreateMemoryBook: a first save rejected with anything other than E11000 would be forwarded. In the model the only such rejection is a failed validation, which it forwards.

## Findings

| source | as written | input that shows it | evidently intended | confidence | as-written member | corrected member |
|---|---|---|---|---|---|---|
| src/routes/contributions.ts:19-26 | The middleware answers TOO_MANY_FILES only for LIMIT_FILE_COUNT. But `array('files', 10)` on line 41 reports an eleventh file as LIMIT_UNEXPECTED_FILE, which falls through to `next` and renders as 500 INTERNAL_SERVER_ERROR. | A POST with 11 file parts under `files` | 400 TOO_MANY_FILES "Tối đa 10 ảnh mỗi lần đóng góp" | medium; not executed; rests on multer naming an over-`maxCount` part LIMIT_UNEXPECTED_FILE | ContributionRoutes.EleventhFileIsServerError | ContributionRoutes.TooManyFilesIntended |
| src/utils/idGenerator.ts:3-16 | The comment promises ids of 8-12 characters. The code removes every `+`, `/` and `=` from the base 64 of eight bytes and keeps no minimum, so an id can be as short as one character. | Eight bytes 0xFF, which encode to `//////////8=` and give the id "8" | An id of 8 to 12 characters of [a-z0-9]. The comment fixes only the length; rendering the bytes in hexadecimal is one correction that meets it, not the only one | low; not executed; the comment may be the part that is wrong | IdGenerator.ShortIdMayBeOneCharacter | IdGenerator.GenerateShortIdHex |

