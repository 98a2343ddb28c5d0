/** `POST /api/wishes`: decode the request, validate and normalise its
    fields, derive the base slug, probe the store for a free slug, insert the
    wish and answer with its slug and URL. The decision logic is stated as
    the pure function `Handle`; `Post` runs it against a `WishStore`. */
module WishesRoute {
  import opened Wrappers
  import opened JsString
  import opened Wish
  import opened Slug
  import opened Store

  /** An uploaded file: its size in bytes, its MIME type (possibly empty) and
      the base64 text `Buffer.from(await file.arrayBuffer()).toString('base64')`
      yields for its bytes. */
  datatype File = File(size: nat, mimeType: string, base64: string)

  /** A multipart field: text, or a file. */
  datatype FormEntry = Text(text: string) | Upload(file: File)

  /** The optional string fields of the request body. */
  datatype Payload = Payload(
    name: Option<string>,
    tone: Option<string>,
    emoji: Option<string>,
    from: Option<string>,
    notes: Option<string>,
    image: Option<string>,
    slug: Option<string>)

  /** The request: its `content-type` header and what `req.json()` and
      `req.formData()` would produce (a value, or the message of the error
      they throw). Only the one the content type selects is read. */
  datatype Request = Request(
    contentType: Option<string>,
    json: Result<Payload, string>,
    form: Result<map<string, FormEntry>, string>)

  /** The JSON body of a response: `{ error }` or `{ slug, url }`. */
  datatype Body = Error(message: string) | Created(slug: string, url: string)

  datatype Response = Response(status: int, body: Body)

  /** The decoded body and, for multipart requests, the uploaded image file. */
  datatype Decoded = Decoded(payload: Payload, file: Option<File>)

  /** The validated, normalised fields of a wish, and its base slug. */
  datatype Draft = Draft(
    name: string,
    tone: Tone,
    emoji: string,
    from: Option<string>,
    notes: Option<string>,
    imageUrl: Option<string>,
    content: string,
    base: string)

  /** What handling a request does: the response, and the record inserted
      into the store, if any. */
  datatype Outcome = Outcome(response: Response, saved: Option<WishRecord>)

  const MaxImageBytes := 5 * 1024 * 1024
  const DefaultSiteUrl := "http://localhost:3000"
  /** What `String(file)` gives for a `File`. */
  const FileText := "[object File]"

  const UnsupportedContentType := "Unsupported content type"
  const NameRequired := "Name is required"
  const ImageTooLarge := "Image too large (max 5MB)"
  const DataUrlsOnly := "Only data URLs supported when not using multipart"

  /** `(form.get(key) as string | null) || undefined`, read later with
      `.toString()`: a missing or empty text field is absent, a file reads as
      `[object File]`. */
  function FormField(form: map<string, FormEntry>, key: string): (r: Option<string>)
    ensures r.Some? ==> r.value != "" && key in form
    ensures key in form && form[key].Text? && form[key].text != "" ==> r == Some(form[key].text)
    ensures key in form && form[key].Upload? ==> r == Some(FileText)
    ensures key !in form || form[key] == Text("") ==> r == None
  {
    if key !in form then None
    else match form[key]
      case Text(s) => if s == "" then None else Some(s)
      case Upload(_) => Some(FileText)
  }

  /** The payload built from the multipart fields. */
  function MapForm(form: map<string, FormEntry>): Payload {
    Payload(
      FormField(form, "name"), FormField(form, "tone"), FormField(form, "emoji"),
      FormField(form, "from"), FormField(form, "notes"), FormField(form, "image"),
      FormField(form, "slug"))
  }

  /** `form.get('image')` when it is a `File`. */
  function FormFile(form: map<string, FormEntry>): Option<File> {
    if "image" in form && form["image"].Upload? then Some(form["image"].file) else None
  }

  /** Lines 17-38: JSON when the content type mentions
      `application/json`, multipart when it mentions `multipart/form-data`,
      415 otherwise; a body that fails to parse gives 500 with its error. */
  function Decode(req: Request): (r: Result<Decoded, Response>)
    ensures var ct := Or(req.contentType, "");
      (r == Failure(Response(415, Error(UnsupportedContentType))))
      <==> (!Contains(ct, "application/json") && !Contains(ct, "multipart/form-data"))
    ensures r.Failure? ==> r.error.status == 415 || r.error.status == 500
    ensures r.Success? && r.value.file.Some? ==> !Contains(Or(req.contentType, ""), "application/json")
    ensures Contains(Or(req.contentType, ""), "application/json") ==>
      r == match req.json
        case Success(p) => Success(Decoded(p, None))
        case Failure(m) => Failure(Response(500, Error(m)))
    ensures (!Contains(Or(req.contentType, ""), "application/json")
      && Contains(Or(req.contentType, ""), "multipart/form-data")) ==>
      r == match req.form
        case Success(f) => Success(Decoded(MapForm(f), FormFile(f)))
        case Failure(m) => Failure(Response(500, Error(m)))
  {
    var ct := Or(req.contentType, "");
    if Contains(ct, "application/json") then
      match req.json
      case Success(p) => Success(Decoded(p, None))
      case Failure(m) => Failure(Response(500, Error(m)))
    else if Contains(ct, "multipart/form-data") then
      match req.form
      case Success(f) => Success(Decoded(MapForm(f), FormFile(f)))
      case Failure(m) => Failure(Response(500, Error(m)))
    else
      Failure(Response(415, Error(UnsupportedContentType)))
  }

  /** `(v || '').toString().trim() || undefined`. */
  function OptionalTrim(v: Option<string>): (r: Option<string>)
    ensures r.None? <==> Trim(Or(v, "")) == ""
    ensures r.Some? ==> v.Some? && r.value == Trim(v.value) && r.value != ""
  {
    var t := Trim(Or(v, ""));
    if t == "" then None else Some(t)
  }

  /** How many `=` the size estimate subtracts: 2 for a trailing `==`, 1 for
      a trailing `=`. */
  function Padding(s: string): (p: nat)
    ensures p <= 2
    ensures p == 2 <==> EndsWith(s, "==")
    ensures p == 1 <==> EndsWith(s, "=") && !EndsWith(s, "==")
  {
    if EndsWith(s, "==") then 2 else if EndsWith(s, "=") then 1 else 0
  }

  /** `Math.ceil((image.length * 3) / 4) - padding`. */
  function EstimatedSize(s: string): int {
    (3 * |s| + 3) / 4 - Padding(s)
  }

  /** Lines 47-69: a file over 5 MiB gives 413, otherwise it becomes a
      `data:` URL; without a file a non-empty image string must be a `data:`
      URL (else 400) whose estimated size is at most 5 MiB (else 413). */
  function ImageUrl(image: Option<string>, file: Option<File>): (r: Result<Option<string>, Response>)
    ensures r.Failure? ==>
      r.error == Response(413, Error(ImageTooLarge)) || r.error == Response(400, Error(DataUrlsOnly))
    ensures file.Some? ==> (r.Failure? <==> file.value.size > MaxImageBytes)
    ensures file.None? && Or(image, "") == "" ==> r == Success(None)
    ensures file.None? && Or(image, "") != "" ==>
      (r.Failure? <==> !StartsWith(image.value, "data:") || EstimatedSize(image.value) > MaxImageBytes)
    ensures file.None? && r.Success? && r.value.Some? ==> r.value.value == image.value
    ensures r.Success? && r.value.Some? ==> StartsWith(r.value.value, "data:")
    ensures file.Some? && file.value.size > MaxImageBytes ==> r == Failure(Response(413, Error(ImageTooLarge)))
    ensures file.Some? && file.value.size <= MaxImageBytes ==>
      var mime := if file.value.mimeType != "" then file.value.mimeType else "image/png";
      r == Success(Some("data:" + mime + ";base64," + file.value.base64))
    ensures file.None? && Or(image, "") != "" && !StartsWith(image.value, "data:") ==>
      r == Failure(Response(400, Error(DataUrlsOnly)))
    ensures file.None? && Or(image, "") != "" && StartsWith(image.value, "data:") ==>
      r == if EstimatedSize(image.value) > MaxImageBytes then Failure(Response(413, Error(ImageTooLarge)))
           else Success(Some(image.value))
  {
    match file
    case Some(f) =>
      if f.size > MaxImageBytes then Failure(Response(413, Error(ImageTooLarge)))
      else
        var url := "data:" + Or(Some(f.mimeType), "image/png") + ";base64," + f.base64;
        assert url[..5] == "data:";
        Success(Some(url))
    case None =>
      var s := Or(image, "");
      if s == "" then Success(None)
      else if !StartsWith(s, "data:") then Failure(Response(400, Error(DataUrlsOnly)))
      else if EstimatedSize(s) > MaxImageBytes then Failure(Response(413, Error(ImageTooLarge)))
      else Success(Some(s))
  }

  /** Lines 40-82: the required trimmed name (checked first), the tone,
      emoji, sender and notes defaults, the image, the message text and the
      base slug. */
  function Prepare(d: Decoded): (r: Result<Draft, Response>)
    ensures Trim(Or(d.payload.name, "")) == "" ==> r == Failure(Response(400, Error(NameRequired)))
    ensures Trim(Or(d.payload.name, "")) != "" ==>
      (r.Failure? <==> ImageUrl(d.payload.image, d.file).Failure?)
    ensures r.Failure? ==> r.error.status == 400 || r.error.status == 413
    ensures Trim(Or(d.payload.name, "")) != "" && ImageUrl(d.payload.image, d.file).Failure? ==>
      r == Failure(ImageUrl(d.payload.image, d.file).error)
    ensures r.Success? ==>
      && r.value.name == Trim(Or(d.payload.name, ""))
      && r.value.imageUrl == ImageUrl(d.payload.image, d.file).value
      && r.value.emoji == (if Or(d.payload.emoji, "") != "" then d.payload.emoji.value else PartyPopper)
      && r.value.base == BaseSlug(d.payload.slug, r.value.name)
  {
    var p := d.payload;
    var name := Trim(Or(p.name, ""));
    if name == "" then Failure(Response(400, Error(NameRequired)))
    else
      var tone := NormalizeTone(Some(Or(p.tone, "sweet")));
      var emoji := Or(p.emoji, PartyPopper);
      var from := OptionalTrim(p.from);
      var notes := OptionalTrim(p.notes);
      match ImageUrl(p.image, d.file)
      case Failure(e) => Failure(e)
      case Success(imageUrl) =>
        var content := GenerateWish(name, Some(tone), Some(emoji), from);
        Success(Draft(name, tone, emoji, from, notes, imageUrl, content, BaseSlug(p.slug, name)))
  }

  /** Everything that happens before the store is touched. */
  function Accept(req: Request): Result<Draft, Response> {
    match Decode(req)
    case Failure(e) => Failure(e)
    case Success(d) => Prepare(d)
  }

  /** `process.env.NEXT_PUBLIC_SITE_URL || 'http://localhost:3000'`. */
  function SiteBase(siteUrl: Option<string>): string {
    Or(siteUrl, DefaultSiteUrl)
  }

  function Record(d: Draft, slug: string): WishRecord {
    WishRecord(d.name, d.tone, d.emoji, d.from, d.notes, d.imageUrl, d.content, slug)
  }

  /** Lines 83-99 against a store holding the slugs `taken`: the draft is
      stored under the probed slug and answered with 201, unless that slug is
      taken (the probe gave up at `base-1001`), when the store's error gives
      500. */
  function Finish(taken: set<string>, d: Draft, siteUrl: Option<string>): (o: Outcome)
    ensures o.saved.Some? <==> o.response.status == 201
    ensures o.saved.None? ==> o == Outcome(Response(500, Error(DuplicateSlugError)), None)
    ensures o.saved.Some? ==>
      && o.saved.value.slug !in taken
      && o.response.body == Created(o.saved.value.slug, SiteBase(siteUrl) + "/wish/" + o.saved.value.slug)
  {
    var slug := Candidate(d.base, ProbeFrom(taken, d.base, 0));
    if slug in taken then Outcome(Response(500, Error(DuplicateSlugError)), None)
    else Outcome(Response(201, Created(slug, SiteBase(siteUrl) + "/wish/" + slug)), Some(Record(d, slug)))
  }

  /** The whole handler: a rejected request gets its error and leaves the
      store alone; an accepted one goes on to the probe and the insert. */
  function Handle(taken: set<string>, req: Request, siteUrl: Option<string>): Outcome {
    match Accept(req)
    case Failure(e) => Outcome(e, None)
    case Success(d) => Finish(taken, d, siteUrl)
  }

  /** The probe and the insert, lines 83-99. */
  method Persist(store: WishStore, d: Draft, siteUrl: Option<string>) returns (resp: Response)
    requires store.Valid()
    modifies store
    ensures store.Valid()
    ensures var o := Finish(old(store.records.Keys), d, siteUrl);
      && resp == o.response
      && (o.saved.None? ==> store.records == old(store.records))
      && (o.saved.Some? ==> store.records == old(store.records)[o.saved.value.slug := o.saved.value])
  {
    var slug, suffix, lookups := store.ProbeSlug(d.base);
    var saved := store.Create(Record(d, slug));
    if saved.Failure? {
      resp := Response(500, Error(saved.error));
    } else {
      resp := Response(201, Created(saved.value.slug, SiteBase(siteUrl) + "/wish/" + saved.value.slug));
    }
  }

  /** `POST(req)` against the store. */
  method Post(store: WishStore, req: Request, siteUrl: Option<string>) returns (resp: Response)
    requires store.Valid()
    modifies store
    ensures store.Valid()
    ensures var o := Handle(old(store.records.Keys), req, siteUrl);
      && resp == o.response
      && (o.saved.None? ==> store.records == old(store.records))
      && (o.saved.Some? ==> store.records == old(store.records)[o.saved.value.slug := o.saved.value])
  {
    match Accept(req)
    case Failure(e) =>
      resp := e;
    case Success(d) =>
      resp := Persist(store, d, siteUrl);
  }

  /** Exactly the requests whose content type names neither JSON nor
      multipart get 415, and they change nothing. */
  lemma {:induction false} Only415ForContentType(taken: set<string>, req: Request, siteUrl: Option<string>)
    ensures var ct := Or(req.contentType, "");
      var o := Handle(taken, req, siteUrl);
      && (o.response.status == 415 <==> !Contains(ct, "application/json") && !Contains(ct, "multipart/form-data"))
      && (o.response.status == 415 ==> o == Outcome(Response(415, Error(UnsupportedContentType)), None))
  {
    match Decode(req)
    case Failure(e) =>
    case Success(d) =>
      match Prepare(d)
      case Failure(e) =>
      case Success(draft) =>
        var o := Finish(taken, draft, siteUrl);
        assert o.response.status == 201 || o.response.status == 500;
  }

  /** The handler answers 201, 400, 413, 415 or 500, and it inserts a record
      exactly when it answers 201, under a slug that was free, answering with
      that slug and its page URL. */
  lemma HandleStatuses(taken: set<string>, req: Request, siteUrl: Option<string>)
    ensures var o := Handle(taken, req, siteUrl);
      && o.response.status in {201, 400, 413, 415, 500}
      && (o.saved.Some? <==> o.response.status == 201)
      && (o.saved.Some? ==>
        o.saved.value.slug !in taken
        && o.response.body == Created(o.saved.value.slug, SiteBase(siteUrl) + "/wish/" + o.saved.value.slug))
  {
    match Accept(req)
    case Failure(e) =>
      assert e.status in {400, 413, 415, 500};
    case Success(d) =>
  }

  /** A decoded request whose trimmed name is empty gets 400 whatever else it
      carries, its image included: the name is checked first. */
  lemma NameCheckedFirst(taken: set<string>, req: Request, siteUrl: Option<string>)
    requires Decode(req).Success? && Trim(Or(Decode(req).value.payload.name, "")) == ""
    ensures Handle(taken, req, siteUrl) == Outcome(Response(400, Error(NameRequired)), None)
  {
  }

  /** What a created wish holds: the trimmed non-empty name; the requested
      tone read case-insensitively, `sweet` when absent or unknown; a
      non-empty emoji, the default one when none or an empty one was sent; the sender and notes trimmed, absent
      when blank; an image only as a `data:` URL; the message generated from
      the stored fields; and a free slug of 1 to 53 slug characters that
      starts with the base slug. */
  lemma StoredRecord(taken: set<string>, req: Request, siteUrl: Option<string>)
    requires Handle(taken, req, siteUrl).saved.Some?
    ensures Decode(req).Success?
    ensures var p := Decode(req).value.payload;
      var rec := Handle(taken, req, siteUrl).saved.value;
      var tone := AsciiLower(Or(p.tone, "sweet"));
      && rec.name == Trim(Or(p.name, "")) && rec.name != ""
      && (tone in ToneNames ==> ToneName(rec.tone) == tone)
      && (tone !in ToneNames ==> rec.tone == Sweet)
      && rec.emoji != ""
      && (Or(p.emoji, "") == "" ==> rec.emoji == PartyPopper)
      && (Or(p.emoji, "") != "" ==> rec.emoji == p.emoji.value)
      && (rec.from.Some? ==> p.from.Some? && rec.from.value == Trim(p.from.value) && rec.from.value != "")
      && (rec.from.None? ==> Trim(Or(p.from, "")) == "")
      && (rec.notes.Some? ==> p.notes.Some? && rec.notes.value == Trim(p.notes.value) && rec.notes.value != "")
      && (rec.notes.None? ==> Trim(Or(p.notes, "")) == "")
      && ImageUrl(p.image, Decode(req).value.file).Success?
      && rec.imageUrl == ImageUrl(p.image, Decode(req).value.file).value
      && (rec.imageUrl.Some? ==> StartsWith(rec.imageUrl.value, "data:"))
      && rec.content == GenerateWish(rec.name, Some(rec.tone), Some(rec.emoji), rec.from)
      && rec.slug !in taken
      && AllSlugChars(rec.slug) && 1 <= |rec.slug| <= 53
      && StartsWith(rec.slug, BaseSlug(p.slug, rec.name))
  {
    var d := Accept(req).value;
    CandidateIsSlug(d.base, ProbeFrom(taken, d.base, 0));
  }

  /** The insert fails, giving 500 with the store's error, exactly when
      every candidate up to `base-1001` is taken; otherwise the wish is stored
      under the first free candidate, which is `base-1001` (never looked up)
      when `base` through `base-1000` are all taken. */
  lemma {:induction false} FinishFailsOnlyWhenAllTaken(taken: set<string>, d: Draft, siteUrl: Option<string>)
    ensures var o := Finish(taken, d, siteUrl);
      && (o.saved.None? <==> forall j :: 0 <= j <= MaxSuffix + 1 ==> Candidate(d.base, j) in taken)
      && (o.saved.Some? ==>
        exists k :: 0 <= k <= MaxSuffix + 1 && o.saved.value.slug == Candidate(d.base, k)
          && forall j :: 0 <= j < k ==> Candidate(d.base, j) in taken)
  {
    var k := ProbeFrom(taken, d.base, 0);
    var o := Finish(taken, d, siteUrl);
    if o.saved.None? {
      assert k == MaxSuffix + 1;
    } else {
      assert o.saved.value.slug == Candidate(d.base, k) && k <= MaxSuffix + 1;
    }
  }

  /** The length of the base64 text for `n` bytes. */
  function Base64Length(n: nat): nat {
    4 * ((n + 2) / 3)
  }

  /** How many `=` end the base64 text for `n` bytes. */
  function Base64Padding(n: nat): nat {
    (3 - n % 3) % 3
  }

  /** `t` has the shape of the base64 text of `n` bytes: the right length,
      ending in exactly the right number of `=`. */
  predicate IsBase64Of(t: string, n: nat) {
    && |t| == Base64Length(n)
    && (forall i :: 0 <= i < |t| - Base64Padding(n) ==> t[i] != '=')
    && (forall i :: |t| - Base64Padding(n) <= i < |t| ==> t[i] == '=')
  }

  /** The arithmetic of the estimate: `4q` base64 characters after a
      header of `h` characters, `pad` of them `=`. */
  lemma EstimateArithmetic(h: nat, n: nat)
    ensures var q := (n + 2) / 3;
      (3 * (h + 4 * q) + 3) / 4 - Base64Padding(n) == n + (3 * h + 3) / 4
  {
    var q := (n + 2) / 3;
    assert 3 * (h + 4 * q) + 3 == 3 * h + 3 + 4 * (3 * q);
    assert 3 * q - Base64Padding(n) == n;
  }

  /** On a data URL the estimate is the payload's byte count plus three
      quarters of the header (the header is not subtracted), rounded up. */
  lemma EstimateOfDataUrl(header: string, t: string, n: nat)
    requires n > 0 && IsBase64Of(t, n)
    ensures EstimatedSize(header + t) == n + (3 * |header| + 3) / 4
  {
    var s := header + t;
    assert |t| >= 4;
    assert s[|s| - 1] == t[|t| - 1] && s[|s| - 2] == t[|t| - 2];
    assert s[|s| - 2..] == [s[|s| - 2], s[|s| - 1]];
    assert s[|s| - 1..] == [s[|s| - 1]];
    assert Padding(s) == Base64Padding(n);
    EstimateArithmetic(|header|, n);
  }

  /** A data URL is accepted exactly when its payload's size plus the
      header's share of the estimate is at most 5 MiB. */
  lemma DataUrlSizeCheck(header: string, t: string, n: nat)
    requires StartsWith(header, "data:") && n > 0 && IsBase64Of(t, n)
    ensures ImageUrl(Some(header + t), None)
      == if n + (3 * |header| + 3) / 4 > MaxImageBytes then Failure(Response(413, Error(ImageTooLarge)))
         else Success(Some(header + t))
  {
    EstimateOfDataUrl(header, t, n);
    StartsWithAppend(header, t, "data:");
  }

  /** An image the upload check rejects is rejected as a data URL too; and a
      5 MiB PNG, accepted as an upload, is rejected as a data URL because
      the header counts towards the estimate. */
  lemma DataUrlLimitIsStricter(header: string, t: string, n: nat)
    requires header == "data:image/png;base64," && IsBase64Of(t, n) && n >= MaxImageBytes
    ensures ImageUrl(Some(header + t), None) == Failure(Response(413, Error(ImageTooLarge)))
    ensures n == MaxImageBytes ==> ImageUrl(None, Some(File(n, "image/png", t))).Success?
  {
    assert StartsWith(header, "data:");
    DataUrlSizeCheck(header, t, n);
  }
}
