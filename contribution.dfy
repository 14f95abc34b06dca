/** The `Contribution` document: a photo submitted to a book through its
    contribute link, kept apart from the book's pages. */
module ContributionSchema {
  import opened Common

  datatype Contribution = Contribution(
    id: ObjectId,
    memoryBookId: ObjectId,
    photoId: string,
    url: string,
    note: string,
    prompt: string,
    contributedAt: Time)

  /** `memoryBookId`, `photoId` and `url` are required, hence never empty. */
  predicate WellFormedContribution(c: Contribution) {
    c.memoryBookId != "" && c.photoId != "" && c.url != ""
  }

  /** `new Contribution({...})` and its validation: the three required
      fields must be truthy; `note` and `prompt` default to '' and
      `contributedAt` to the current time when absent. `None` is a
      `ValidationError`. */
  function NewContribution(
    id: ObjectId, memoryBookId: ObjectId, photoId: string, url: string,
    note: Option<string>, prompt: Option<string>, contributedAt: Option<Time>, now: Time): (r: Option<Contribution>)
    ensures r.Some? <==> memoryBookId != "" && photoId != "" && url != ""
    ensures r.Some? ==> WellFormedContribution(r.value)
    ensures r.Some? ==> r.value.id == id && r.value.memoryBookId == memoryBookId
    ensures r.Some? ==> r.value.photoId == photoId && r.value.url == url
    ensures r.Some? ==> r.value.note == (if note.Some? then note.value else "")
    ensures r.Some? ==> r.value.prompt == (if prompt.Some? then prompt.value else "")
    ensures r.Some? ==> r.value.contributedAt == (if contributedAt.Some? then contributedAt.value else now)
  {
    if memoryBookId != "" && photoId != "" && url != "" then
      Some(Contribution(id, memoryBookId, photoId, url, OrEmpty(note), OrEmpty(prompt),
        if contributedAt.Some? then contributedAt.value else now))
    else None
  }

  /** With nothing but the required fields, a contribution has an empty
      note and prompt and is stamped with the time it was built. */
  lemma ContributionDefaults(id: ObjectId, memoryBookId: ObjectId, photoId: string, url: string, now: Time)
    requires memoryBookId != "" && photoId != "" && url != ""
    ensures NewContribution(id, memoryBookId, photoId, url, None, None, None, now)
      == Some(Contribution(id, memoryBookId, photoId, url, "", "", now))
  {
  }
}
