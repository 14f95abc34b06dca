/** The `MemoryBook` document: photos inside pages inside a book, the page
    layouts and book types the schema accepts, its required fields and
    defaults, and the hook that stamps `updatedAt` on every save. */
module MemoryBookSchema {
  import opened Common

  // ---------------------------------------------------------------------
  // Enumerations

  /** `MemoryBookType`, stored as its Vietnamese label. */
  datatype BookType = LopHoc | PhongBan | Nhom

  function BookTypeName(t: BookType): string {
    match t
    case LopHoc => "Lớp học"
    case PhongBan => "Phòng ban"
    case Nhom => "Nhóm"
  }

  /** The `enum` validator of `type`: only the three labels are accepted. */
  function ParseBookType(s: string): (r: Option<BookType>)
    ensures r.Some? ==> BookTypeName(r.value) == s
    ensures r.None? ==> forall t :: BookTypeName(t) != s
  {
    if s == "Lớp học" then Some(LopHoc)
    else if s == "Phòng ban" then Some(PhongBan)
    else if s == "Nhóm" then Some(Nhom)
    else None
  }

  lemma BookTypeRoundTrip(t: BookType)
    ensures ParseBookType(BookTypeName(t)) == Some(t)
  {
  }

  /** `PhotoLayout`. */
  datatype Layout =
    | Single | TwoHorizontal | TwoVertical
    | ThreeLeft | ThreeRight | ThreeTop | ThreeBottom
    | FourGrid

  function LayoutName(l: Layout): string {
    match l
    case Single => "single"
    case TwoHorizontal => "two-horizontal"
    case TwoVertical => "two-vertical"
    case ThreeLeft => "three-left"
    case ThreeRight => "three-right"
    case ThreeTop => "three-top"
    case ThreeBottom => "three-bottom"
    case FourGrid => "four-grid"
  }

  /** The `enum` validator of a page's `layout`. */
  function ParseLayout(s: string): (r: Option<Layout>)
    ensures r.Some? ==> LayoutName(r.value) == s
    ensures r.None? ==> forall l :: LayoutName(l) != s
  {
    if s == "single" then Some(Single)
    else if s == "two-horizontal" then Some(TwoHorizontal)
    else if s == "two-vertical" then Some(TwoVertical)
    else if s == "three-left" then Some(ThreeLeft)
    else if s == "three-right" then Some(ThreeRight)
    else if s == "three-top" then Some(ThreeTop)
    else if s == "three-bottom" then Some(ThreeBottom)
    else if s == "four-grid" then Some(FourGrid)
    else None
  }

  lemma LayoutRoundTrip(l: Layout)
    ensures ParseLayout(LayoutName(l)) == Some(l)
  {
  }

  // ---------------------------------------------------------------------
  // Stored documents

  datatype Photo = Photo(id: string, url: string, note: string, prompt: string)

  datatype Page = Page(id: string, photos: seq<Photo>, layout: Layout, note: string)

  /** A stored book. `userId` is the owner the controller passes on
      creation and filters on. */
  datatype MemoryBook = MemoryBook(
    id: ObjectId,
    userId: ObjectId,
    name: string,
    bookType: BookType,
    pages: seq<Page>,
    shareId: string,
    contributeId: string,
    createdAt: Time,
    updatedAt: Time)

  /** What the `required: true` validators guarantee of every stored value:
      a required string is never empty. */
  predicate WellFormedPhoto(p: Photo) {
    p.id != "" && p.url != ""
  }

  predicate WellFormedPage(p: Page) {
    p.id != "" && forall k | 0 <= k < |p.photos| :: WellFormedPhoto(p.photos[k])
  }

  predicate WellFormedPages(pages: seq<Page>) {
    forall k | 0 <= k < |pages| :: WellFormedPage(pages[k])
  }

  predicate WellFormedBook(b: MemoryBook) {
    b.name != "" && WellFormedPages(b.pages) && b.shareId != "" && b.contributeId != ""
  }

  // ---------------------------------------------------------------------
  // Casting a request body to stored pages

  /** A photo and a page as a request body gives them; `None` is a key that
      is absent (undefined). An absent `photos` array is the empty one. */
  datatype RawPhoto = RawPhoto(id: Option<string>, url: Option<string>, note: Option<string>, prompt: Option<string>)

  datatype RawPage = RawPage(id: Option<string>, photos: seq<RawPhoto>, layout: Option<string>, note: Option<string>)

  /** `PhotoSchema`: `id` and `url` are required, `note` and `prompt`
      default to ''. */
  function CastPhoto(r: RawPhoto): (p: Option<Photo>)
    ensures p.Some? <==> Truthy(r.id) && Truthy(r.url)
    ensures p.Some? ==> WellFormedPhoto(p.value)
    ensures p.Some? ==> p.value.id == r.id.value && p.value.url == r.url.value
    ensures p.Some? ==> p.value.note == (if r.note.Some? then r.note.value else "")
    ensures p.Some? ==> p.value.prompt == (if r.prompt.Some? then r.prompt.value else "")
  {
    if Truthy(r.id) && Truthy(r.url) then
      Some(Photo(r.id.value, r.url.value, OrEmpty(r.note), OrEmpty(r.prompt)))
    else None
  }

  function CastPhotos(rs: seq<RawPhoto>): (ps: Option<seq<Photo>>)
    ensures ps.Some? <==> forall k | 0 <= k < |rs| :: CastPhoto(rs[k]).Some?
    ensures ps.Some? ==> |ps.value| == |rs| && forall k | 0 <= k < |rs| :: Some(ps.value[k]) == CastPhoto(rs[k])
  {
    if |rs| == 0 then Some([])
    else
      var head := CastPhoto(rs[0]);
      var tail := CastPhotos(rs[1..]);
      if head.Some? && tail.Some? then Some([head.value] + tail.value)
      else
        assert tail.None? ==> exists k | 0 <= k < |rs[1..]| :: CastPhoto(rs[1..][k]).None?;
        None
  }

  /** `PhotoPageSchema`: `id` and `layout` are required, `layout` is one of
      the eight names, `note` defaults to '', every photo must cast. */
  function CastPage(r: RawPage): (p: Option<Page>)
    ensures p.Some? <==> Truthy(r.id) && r.layout.Some? && ParseLayout(r.layout.value).Some? && CastPhotos(r.photos).Some?
    ensures p.Some? ==> WellFormedPage(p.value)
    ensures p.Some? ==> p.value.id == r.id.value && LayoutName(p.value.layout) == r.layout.value
    ensures p.Some? ==> p.value.note == (if r.note.Some? then r.note.value else "")
    ensures p.Some? ==> Some(p.value.photos) == CastPhotos(r.photos)
  {
    if Truthy(r.id) && r.layout.Some? then
      match (ParseLayout(r.layout.value), CastPhotos(r.photos))
      case (Some(l), Some(ps)) => Some(Page(r.id.value, ps, l, OrEmpty(r.note)))
      case _ => None
    else None
  }

  function CastPages(rs: seq<RawPage>): (ps: Option<seq<Page>>)
    ensures ps.Some? <==> forall k | 0 <= k < |rs| :: CastPage(rs[k]).Some?
    ensures ps.Some? ==> |ps.value| == |rs| && forall k | 0 <= k < |rs| :: Some(ps.value[k]) == CastPage(rs[k])
    ensures ps.Some? ==> WellFormedPages(ps.value)
  {
    if |rs| == 0 then Some([])
    else
      var head := CastPage(rs[0]);
      var tail := CastPages(rs[1..]);
      if head.Some? && tail.Some? then Some([head.value] + tail.value)
      else
        assert tail.None? ==> exists k | 0 <= k < |rs[1..]| :: CastPage(rs[1..][k]).None?;
        None
  }

  // The JSON form of stored pages, as `getMemoryBookById` sends them.

  function RawOfPhoto(p: Photo): RawPhoto {
    RawPhoto(Some(p.id), Some(p.url), Some(p.note), Some(p.prompt))
  }

  function RawOfPhotos(ps: seq<Photo>): (rs: seq<RawPhoto>)
    ensures |rs| == |ps| && forall k | 0 <= k < |ps| :: rs[k] == RawOfPhoto(ps[k])
  {
    seq(|ps|, k requires 0 <= k < |ps| => RawOfPhoto(ps[k]))
  }

  function RawOfPage(p: Page): RawPage {
    RawPage(Some(p.id), RawOfPhotos(p.photos), Some(LayoutName(p.layout)), Some(p.note))
  }

  function RawOfPages(ps: seq<Page>): (rs: seq<RawPage>)
    ensures |rs| == |ps| && forall k | 0 <= k < |ps| :: rs[k] == RawOfPage(ps[k])
  {
    seq(|ps|, k requires 0 <= k < |ps| => RawOfPage(ps[k]))
  }

  lemma CastRawPhotos(ps: seq<Photo>)
    requires forall k | 0 <= k < |ps| :: WellFormedPhoto(ps[k])
    ensures CastPhotos(RawOfPhotos(ps)) == Some(ps)
  {
    var rs := RawOfPhotos(ps);
    assert forall k | 0 <= k < |rs| :: CastPhoto(rs[k]) == Some(ps[k]);
    assert CastPhotos(rs).value == ps;
  }

  lemma CastRawPage(p: Page)
    requires WellFormedPage(p)
    ensures CastPage(RawOfPage(p)) == Some(p)
  {
    CastRawPhotos(p.photos);
    LayoutRoundTrip(p.layout);
  }

  /** Pages read from a book and sent back unchanged cast to exactly the same
      pages: updating a book with the `pages` it returned changes nothing. */
  lemma CastRawPages(ps: seq<Page>)
    requires WellFormedPages(ps)
    ensures CastPages(RawOfPages(ps)) == Some(ps)
  {
    var rs := RawOfPages(ps);
    forall k | 0 <= k < |rs| ensures CastPage(rs[k]) == Some(ps[k]) {
      CastRawPage(ps[k]);
    }
    assert CastPages(rs).value == ps;
  }

  // ---------------------------------------------------------------------
  // Building and saving a book

  /** `new MemoryBook({ name, type, pages: [], shareId, contributeId, userId })`
      followed by validation and the pre-save hook: `name` is required, `type`
      must be one of the three labels, `createdAt` is defaulted and
      `updatedAt` is set by the hook, both to `now`. `None` is a
      `ValidationError`. */
  function NewBook(id: ObjectId, userId: ObjectId, name: string, bookType: string, shareId: string, contributeId: string, now: Time): (r: Option<MemoryBook>)
    ensures r.Some? <==> name != "" && ParseBookType(bookType).Some? && shareId != "" && contributeId != ""
    ensures r.Some? ==> WellFormedBook(r.value)
    ensures r.Some? ==> r.value.id == id && r.value.userId == userId && r.value.name == name
    ensures r.Some? ==> BookTypeName(r.value.bookType) == bookType && r.value.pages == []
    ensures r.Some? ==> r.value.shareId == shareId && r.value.contributeId == contributeId
    ensures r.Some? ==> r.value.createdAt == now && r.value.updatedAt == now
  {
    if name != "" && shareId != "" && contributeId != "" then
      match ParseBookType(bookType)
      case Some(t) => Some(MemoryBook(id, userId, name, t, [], shareId, contributeId, now, now))
      case None => None
    else None
  }

  /** The pre-save hook: `this.updatedAt = new Date()`. */
  function Touch(b: MemoryBook, now: Time): (r: MemoryBook)
    ensures r.updatedAt == now
    ensures r == b.(updatedAt := r.updatedAt)
  {
    b.(updatedAt := now)
  }
}
