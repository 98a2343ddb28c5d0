# Birthday wishes: a verified model of the wish composer, the creation endpoint and the card text

This project models the logic at the heart of a small Next.js application. The application writes a birthday message ("wish"), stores it under a short slug, and shows it on a page with a social-card image. Three source files are modelled:

- `src/lib/wish.ts`:
  - `generateWish` builds the message from three tables of passages keyed by tone (intro, middle, close). The name and emoji are substituted in, and an optional "With love" sign-off is added.
  - `normalizeTone` maps any value onto `sweet | fun | poetic`.
  - Module `Wish`: pure functions and lemmas.
- `src/app/api/wishes/route.ts`, the `POST` handler:
  - Request steps:
    - the content-type gate (JSON, multipart or 415);
    - the form-field mapping;
    - the required trimmed name (400);
    - the tone, emoji, sender and notes defaults;
    - the image checks: the file size limit, the `data:` URL requirement, and the integer size estimate of a base64 data URL (400/413).
  - Slug and storage steps:
    - the desired slug and the slug taken from the name;
    - the `base`, `base-1`, `base-2`, … probe against the store, with its ceiling at 1000;
    - the insert, and the 201 / 500 answer.
  - The pure steps are in module `Slug` (slug derivation) and module `WishesRoute` (`Decode`, `Prepare`, `Finish` and the whole-handler function `Handle`).
  - The store is the class `Store.WishStore`: a map from slug to record, with `FindUnique` and `Create` methods. The `while (true)` probe is the method `WishStore.ProbeSlug`, with loop invariants. It is proved to settle on the suffix the function `ProbeFrom` specifies.
  - `WishesRoute.Post` runs the handler against a store. It is proved to answer as `Handle` does and to change the store exactly as `Handle` says.
- `src/app/og.png/route.ts`: `escapeXml` and the card's name, title and subtitle (module `OgCard`).

Supporting modules:
- `Wrappers`: `Option` and `Result`.
- `JsString`: the JavaScript string operations the code uses, stated over `seq<char>`:
  - `||` on strings;
  - `trim` with the exact whitespace set of the language;
  - ASCII `toLowerCase`;
  - `startsWith`, `endsWith`, `includes` and `slice(0, n)`.

Inputs the code gets from its environment become parameters:
- the `content-type` header, and the value or error of `req.json()` / `req.formData()`;
- the uploaded file's size, MIME type and base64 text;
- the `NEXT_PUBLIC_SITE_URL` setting;
- the set of slugs already stored.

### Behaviour of the code worth knowing

- **Edge hyphens.** The slug rules remove only one hyphen at each edge (`/(^-|-$)/g`, src/app/api/wishes/route.ts:80 and :82), and they truncate after stripping (:81, :82).
  - A desired slug `--a--` gives `-a-` (`Slug.DesiredSlugKeepsDoubledEdgeHyphens`).
  - The cut to 48 or 40 characters can end on a hyphen (`Slug.DesiredSlugCutLeavesHyphen`, `Slug.NameSlugCutLeavesHyphen`).
- **Duplicate on insert.** The probe gives up after suffix 1000 (src/app/api/wishes/route.ts:88-90), and the insert (:93-95) is not retried. A duplicate slug makes `create` throw, and the `catch` (:100-102) turns that into a 500 answer.
  - Without concurrency this happens only when `base` through `base-1001` are all taken (`WishesRoute.FinishFailsOnlyWhenAllTaken`).
  - If `base` through `base-1000` are taken but `base-1001` is free, the wish is stored under `base-1001`, a slug the probe never looked up.
- **Error message of a 500.** The `catch` answers with the message of the exception it caught when that is an `Error`, and with `Unexpected error` for any other thrown value (src/app/api/wishes/route.ts:101-102).
- **Emoji default.** The handler uses `||` (src/app/api/wishes/route.ts:43), so an empty emoji becomes the party popper (`WishesRoute.StoredRecord`). `generateWish` itself uses `??` (src/lib/wish.ts:8) and keeps an explicit empty emoji (`Wish.DefaultOptions`).

## Model

| member | source | states |
|---|---|---|
| JsString.Or | src/app/api/wishes/route.ts:40-45 | `v \|\| d` on an optional string: the value when present and non-empty, and the default when the value is absent or empty; empty only if the default is |
| JsString.Trim | src/app/api/wishes/route.ts:40 | the result is a contiguous slice of the input whose cut-off prefix and suffix are all whitespace and whose own ends are not whitespace |
| JsString.TrimIdempotent | src/lib/wish.ts:9 | trimming an already trimmed sender changes nothing |
| JsString.TrimEmptyIffAllSpace | src/app/api/wishes/route.ts:40-41 | the trimmed name is empty exactly when the name is all whitespace |
| JsString.AsciiLower | src/lib/wish.ts:36 | lower-casing keeps the length and maps each character on its own |
| JsString.Contains | src/app/api/wishes/route.ts:20-22 | no contract of its own; `JsString.ContainsIffOccurs` ties it to an occurrence at some index |
| JsString.ContainsIffOccurs | src/app/api/wishes/route.ts:20-22 | `includes` as modelled holds exactly when the text occurs at some index of the string |
| JsString.Take | src/app/og.png/route.ts:5 | `slice(0, n)` gives a prefix of length min(\|s\|, n) |
| JsString.StartsWith | src/app/api/wishes/route.ts:60 | no contract of its own: `startsWith(p)` holds exactly when `p` is no longer than `s` and `s[..\|p\|] == p`; `WishesRoute.ImageUrl` states the 400 it decides for a text image that is not a data URL |
| JsString.EndsWith | src/app/api/wishes/route.ts:63 | no contract of its own: `endsWith(p)` holds exactly when `p` is no longer than `s` and `s[\|s\|-\|p\|..] == p`; `WishesRoute.Padding` states the 2, 1 or 0 it chooses from the `==` and `=` tests |
| Wrappers.Option.GetOr | src/lib/wish.ts:7-8 | no contract of its own: the `??` operator; `Wish.DefaultOptions` states the defaults it gives a missing tone and emoji |
| Wish.ParseTone | src/lib/wish.ts:33-37 | `tones.includes(s)` holds exactly for the three tone names, and the tone found has that name |
| Wish.NormalizeTone | src/lib/wish.ts:35-38 | the result is the lower-cased input when that names a tone, and `sweet` for anything else, including a missing value |
| Wish.ToneNameRoundTrip | src/lib/wish.ts:1 | every `WishTone` name is lower case and parses back to the same tone |
| Wish.NormalizeToneIdempotent | src/lib/wish.ts:35-38 | normalising an already normalised tone gives the same tone |
| Wish.NormalizeToneIgnoresCase | src/lib/wish.ts:36-37 | `SWEET`, `Fun` and `poeTIC` normalise to their tones |
| Wish.NormalizeToneFallsBack | src/lib/wish.ts:36-37 | an unknown word, the empty string and a missing value all give `sweet` |
| Wish.GenerateWish | src/lib/wish.ts:3-31 | no contract of its own; `Wish.WishOpensWithIntro`, `Wish.UnsignedEndsWithClose`, `Wish.SignatureRule` and `Wish.DefaultOptions` state what the message is made of |
| Wish.Intro | src/lib/wish.ts:11-15 | no contract of its own; `Wish.IntroMentionsNameAndEmoji` and `Wish.TonesAreDistinct` state that each tone's intro names the recipient and the emoji and differs from the others |
| Wish.Middle | src/lib/wish.ts:17-21 | no contract of its own; `Wish.TonesAreDistinct` states that the three middles differ |
| Wish.Close | src/lib/wish.ts:23-27 | no contract of its own; `Wish.IntroMentionsNameAndEmoji` states that each close ends with the emoji, and `Wish.TonesAreDistinct` that the closes differ |
| Wish.Unsigned | src/lib/wish.ts:30 | no contract of its own; `Wish.WishOpensWithIntro` and `Wish.UnsignedEndsWithClose` state that it opens with the intro and ends with the close |
| Wish.Signature | src/lib/wish.ts:9 | no contract of its own; `Wish.SignatureRule` states that it is `\n\nWith love,\n` and the trimmed sender when that is non-empty, and empty otherwise |
| Wish.IntroMentionsNameAndEmoji | src/lib/wish.ts:11-27 | for every tone the intro contains the name and the emoji, and the close ends with the emoji |
| Wish.WishOpensWithIntro | src/lib/wish.ts:11-30 | the message begins with the intro for its tone, name and emoji, defaults applied |
| Wish.UnsignedEndsWithClose | src/lib/wish.ts:23-30 | the three passages joined by blank lines end with the closing passage |
| Wish.SignatureRule | src/lib/wish.ts:29-30 | with a non-empty trimmed sender the message is the unsigned one plus a blank line, `With love,` and the trimmed sender; otherwise it is exactly the unsigned message |
| Wish.DefaultOptions | src/lib/wish.ts:7-8 | an omitted tone acts as `sweet` and an omitted emoji as the party popper, but an explicit empty emoji gives a different message |
| Wish.TonesAreDistinct | src/lib/wish.ts:11-27 | different tones have different intro, middle and close passages |
| OgCard.EscapeXmlOfChar | src/app/og.png/route.ts:39 | the three passes map `&`, `<`, `>` to their entities and leave any other single character alone |
| OgCard.EscapeXml | src/app/og.png/route.ts:38-40 | no contract of its own; the three `replace` passes, stated by `OgCard.EscapeXmlCharwise`, `OgCard.EscapeXmlSafe`, `OgCard.UnescapeEscape` and `OgCard.EscapeXmlInjective` |
| OgCard.ReplaceChar | src/app/og.png/route.ts:39 | no contract of its own; `OgCard.ReplaceCharAppend`, `OgCard.ReplaceCharAbsent` and `OgCard.ReplaceCharOne` state that one `replace(/c/g, …)` pass works character by character, replacing each `c` and leaving other text alone |
| OgCard.EscapeXmlCharwise | src/app/og.png/route.ts:39 | the three replacement passes, `&` first, equal escaping character by character, so nothing is escaped twice |
| OgCard.EscapeXmlSafe | src/app/og.png/route.ts:38-40 | the escaped text has no `<` or `>`, and every `&` in it begins `&amp;`, `&lt;` or `&gt;` |
| OgCard.EscapeXmlIdentity | src/app/og.png/route.ts:39 | text without `&`, `<` and `>` is unchanged |
| OgCard.UnescapeEscape | src/app/og.png/route.ts:38-40 | decoding the three entities from left to right recovers the input |
| OgCard.EscapeXmlInjective | src/app/og.png/route.ts:38-40 | different texts never escape to the same text |
| OgCard.CardName | src/app/og.png/route.ts:5 | the name is a prefix of the trimmed parameter of length min(that length, 40): the whole trimmed parameter when it fits, otherwise its first 40 characters; empty exactly when the trimmed parameter is |
| OgCard.Title | src/app/og.png/route.ts:6 | no contract of its own; `OgCard.TitleNamesRecipient` and `OgCard.CardTextFor` state the greeting with a name and `Birthday Wish` without |
| OgCard.Subtitle | src/app/og.png/route.ts:7 | no contract of its own; `OgCard.TitleNamesRecipient` and `OgCard.CardTextFor` state the personal and the generic subtitle |
| OgCard.CardTextFor | src/app/og.png/route.ts:5-19 | both text nodes are free of markup and decode to the title and subtitle chosen by the name; a blank name gives `Birthday Wish` |
| OgCard.TitleNamesRecipient | src/app/og.png/route.ts:6-7 | with a name the title starts `Happy Birthday, ` and contains the name, and the subtitle is the personal one |
| Slug.CollapseRunsShape | src/app/api/wishes/route.ts:79 | collapsing runs leaves only `[a-z0-9-]`, is empty only for empty input, starts with the first character or a hyphen, and has no `--` when hyphens are separators |
| Slug.CollapseRunsKeepsAlnums | src/app/api/wishes/route.ts:79 | collapsing runs keeps exactly the letters and digits, in order |
| Slug.CollapseRuns | src/app/api/wishes/route.ts:79 | no contract of its own; `Slug.CollapseKeptPrefix` (a kept prefix passes through unchanged) and `Slug.CollapseRun` (a maximal run of other characters becomes one hyphen) fix the replacement, and `Slug.CollapseRunsShape` and `Slug.CollapseRunsKeepsAlnums` state its shape |
| Slug.StripEdgeHyphens | src/app/api/wishes/route.ts:80 | stripping never lengthens the text, keeps it a slug, keeps every non-hyphen, and on text without `--` leaves no edge hyphen |
| Slug.StripDecomposes | src/app/api/wishes/route.ts:80 | the text is exactly a hyphen if it starts with one, then what stripping keeps, then a hyphen if what remains ends with one: nothing else is removed |
| Slug.StripKeepsAlnums | src/app/api/wishes/route.ts:80 | stripping the edge hyphens keeps every letter and digit, in order |
| Slug.TakeKeepsAlnums | src/app/api/wishes/route.ts:81-82 | the cut keeps a prefix of the letters and digits, and all of them when nothing is cut |
| Slug.DesiredSlug | src/app/api/wishes/route.ts:76-81 | the desired slug has only `[a-z0-9-]` and at most 48 characters |
| Slug.DesiredSlugKeepsAlnums | src/app/api/wishes/route.ts:76-81 | the desired slug's letters and digits are a prefix of those of the lower-cased request text, all of them when the stripped text fits in 48 characters |
| Slug.NameSlug | src/app/api/wishes/route.ts:82 | the slug from the name has only `[a-z0-9-]`, no `--`, no leading hyphen and at most 40 characters |
| Slug.NameSlugKeepsAlnums | src/app/api/wishes/route.ts:82 | the same for the slug from the name, cut at 40 |
| Slug.NameSlugEmptyIff | src/app/api/wishes/route.ts:82 | the slug from the name is empty exactly when the lower-cased name has no ASCII letter or digit |
| Slug.BaseSlug | src/app/api/wishes/route.ts:82 | the base is the desired slug if non-empty, else the name slug if non-empty, else `wish`; it is never empty, is a slug, and has at most 48 characters |
| Slug.Decimal | src/app/api/wishes/route.ts:89 | `${suffix}` is a non-empty string of digits, of two or more digits from 10 on; `Slug.DecimalValue` states that it spells the number |
| Slug.DecimalValue | src/app/api/wishes/route.ts:89 | reading the numeral back, most significant digit first, gives the number: the suffix is written in decimal |
| Slug.DecimalInjective | src/app/api/wishes/route.ts:89 | different suffix numbers have different numerals (from `Slug.DecimalValue`) |
| Slug.DecimalFits | src/app/api/wishes/route.ts:89 | a number below 10^d has at most d digits |
| Slug.Candidate | src/app/api/wishes/route.ts:83-89 | no contract of its own; `Slug.CandidateInjective` and `Slug.CandidateIsSlug` state that candidates differ from one another and are slugs starting with the base |
| Slug.CandidateInjective | src/app/api/wishes/route.ts:89 | different suffixes give different candidates, so no slug is looked up twice |
| Slug.CandidateIsSlug | src/app/api/wishes/route.ts:82-90 | every candidate up to `base-1001` is a non-empty slug of at most 53 characters that starts with the base |
| Slug.NameSlugOfTwoWords | src/app/api/wishes/route.ts:82 | two words joined and followed by separators give the two lower-cased words joined by one hyphen |
| Slug.DesiredSlugOfTwoWords | src/app/api/wishes/route.ts:76-81 | the same for the desired slug, where a hyphen is not a separator |
| Slug.NameSlugExample | src/app/api/wishes/route.ts:82 | the trimmed name `Jo Ann!` gives `jo-ann` |
| Slug.DesiredSlugExample | src/app/api/wishes/route.ts:76-81 | the desired slug `Cool_Slug!!` gives `cool-slug` |
| Slug.DesiredSlugKeepsDoubledEdgeHyphens | src/app/api/wishes/route.ts:79-80 | the desired slug `--a--` gives `-a-`: one hyphen is stripped per edge |
| Slug.DesiredSlugCutLeavesHyphen | src/app/api/wishes/route.ts:80-81 | a 47-letter word and a second word give a 48-character desired slug ending in a hyphen |
| Slug.NameSlugCutLeavesHyphen | src/app/api/wishes/route.ts:82 | a 39-letter word and a second word give a 40-character name slug ending in a hyphen |
| Store.ProbeFrom | src/app/api/wishes/route.ts:83-91 | from suffix k the probe settles on a suffix at most 1001 below which every candidate is taken, and which is free unless it is 1001 |
| Store.ProbeFromIsFirstFree | src/app/api/wishes/route.ts:83-91 | the probe result is the only suffix with those properties: the first free one, or 1001 |
| Store.ProbeExample | src/app/api/wishes/route.ts:83-91 | with `ana`, `ana-1`, `ana-2` stored the probe settles on `ana-3` |
| Store.ProbeCeiling | src/app/api/wishes/route.ts:88-90 | with `base` through `base-1000` all taken the probe ends on suffix 1001 |
| Store.ProbeFindsFree | src/app/api/wishes/route.ts:85-87 | when some candidate up to `base-1000` is free the probe stops at or before it, on a free candidate |
| Store.WishStore.FindUnique | src/app/api/wishes/route.ts:86 | a record is found exactly when its slug is stored, and it is the stored one |
| Store.WishStore.Create | src/app/api/wishes/route.ts:93-95 | inserting a taken slug fails with the unique-constraint error and changes nothing; otherwise the record is added under its slug |
| Store.WishStore.ProbeSlug | src/app/api/wishes/route.ts:83-91 | the loop returns the suffix `ProbeFrom` specifies and its candidate, looks up exactly `base`, `base-1`, … up to the free one (or through `base-1000`), and changes nothing |
| WishesRoute.FormField | src/app/api/wishes/route.ts:25-31 | a missing or empty field is absent, a non-empty text field is kept, and a file reads as `[object File]` |
| WishesRoute.MapForm | src/app/api/wishes/route.ts:24-32 | no contract of its own: each payload field is `WishesRoute.FormField` of its key, whose contract states the rule |
| WishesRoute.FormFile | src/app/api/wishes/route.ts:34-35 | no contract of its own: the image entry when it is a file; `WishesRoute.Decode` states where it goes |
| WishesRoute.Decode | src/app/api/wishes/route.ts:17-38 | 415 exactly when the content type names neither JSON nor multipart; with JSON the payload is the parsed body and there is no file, with multipart it is the mapped form fields and the uploaded image file; a body that fails to parse gives 500 with the parser's message |
| WishesRoute.OptionalTrim | src/app/api/wishes/route.ts:44-45 | the sender or notes are absent exactly when blank after trimming, and otherwise are the trimmed text |
| WishesRoute.Padding | src/app/api/wishes/route.ts:63 | the estimate subtracts 2 exactly for a trailing `==`, 1 exactly for a single trailing `=`, and nothing otherwise |
| WishesRoute.EstimatedSize | src/app/api/wishes/route.ts:63 | no contract of its own; `WishesRoute.EstimateOfDataUrl` states its value on a well-formed data URL |
| WishesRoute.ImageUrl | src/app/api/wishes/route.ts:47-69 | a file over 5 MiB gives 413 `Image too large`, any other file the URL `data:<type or image/png>;base64,<text>`; without a file an empty image means none, a non-empty one not starting `data:` gives 400 `Only data URLs…`, one whose estimate is over 5 MiB gives 413, and any other is kept as sent |
| WishesRoute.Prepare | src/app/api/wishes/route.ts:40-82 | a blank name gives 400 whatever the image; otherwise the request fails exactly when the image check fails, with that check's answer; an accepted draft has the trimmed name, the checked image, the sent emoji or the party popper, and the base slug of the requested slug and the name |
| WishesRoute.Accept | src/app/api/wishes/route.ts:17-82 | no contract of its own; `WishesRoute.Only415ForContentType`, `WishesRoute.NameCheckedFirst` and `WishesRoute.HandleStatuses` state its answers |
| WishesRoute.SiteBase | src/app/api/wishes/route.ts:97 | no contract of its own: `JsString.Or` with the default `http://localhost:3000`, whose contract states the rule; `WishesRoute.Finish` states the URL built from it |
| WishesRoute.Record | src/app/api/wishes/route.ts:93-94 | no contract of its own: the `data` object of the insert; `WishesRoute.StoredRecord` states each of its fields |
| WishesRoute.Finish | src/app/api/wishes/route.ts:83-99 | a record is saved exactly when the answer is 201, under a slug that was free, answered with that slug and `site + "/wish/" + slug`; otherwise 500 with the store's error |
| WishesRoute.Handle | src/app/api/wishes/route.ts:15-104 | no contract of its own; `WishesRoute.HandleStatuses`, `WishesRoute.StoredRecord` and `WishesRoute.Only415ForContentType` state what it answers and saves, and `WishesRoute.Post` is proved to behave as it says |
| WishesRoute.Persist | src/app/api/wishes/route.ts:83-99 | the probe and insert against the store answer as `Finish` says and add exactly the record it saves |
| WishesRoute.Post | src/app/api/wishes/route.ts:15-104 | the handler answers as `Handle` says; a rejected request leaves the store unchanged and a created wish is added under its slug |
| WishesRoute.Only415ForContentType | src/app/api/wishes/route.ts:20-38 | the answer is 415 exactly when the content type names neither JSON nor multipart, and then nothing is saved |
| WishesRoute.HandleStatuses | src/app/api/wishes/route.ts:15-104 | the answer is 201, 400, 413, 415 or 500; a record is saved exactly on 201, under a free slug, with its URL in the answer |
| WishesRoute.NameCheckedFirst | src/app/api/wishes/route.ts:40-41 | a decoded request with a blank name gets 400 `Name is required` and saves nothing, whatever its image |
| WishesRoute.StoredRecord | src/app/api/wishes/route.ts:40-95 | a saved wish has the trimmed name, the tone read case-insensitively (default `sweet`), the sent emoji or the party popper when none or an empty one was sent, trimmed or absent sender and notes, the image the image check accepted, the message generated from these fields, and a free slug of 1 to 53 slug characters starting with the base |
| WishesRoute.FinishFailsOnlyWhenAllTaken | src/app/api/wishes/route.ts:83-95 | the insert fails exactly when every candidate up to `base-1001` is taken; otherwise the wish is stored under the first free candidate |
| WishesRoute.EstimateOfDataUrl | src/app/api/wishes/route.ts:63 | for well-formed base64 of n bytes after a header of h characters, the estimate is n + ceil(3h/4) |
| WishesRoute.DataUrlSizeCheck | src/app/api/wishes/route.ts:58-67 | a well-formed data URL is accepted exactly when that estimate is at most 5 MiB, and rejected with 413 otherwise |
| WishesRoute.DataUrlLimitIsStricter | src/app/api/wishes/route.ts:49-66 | an image of at least 5 MiB is rejected as a data URL, while an upload of exactly 5 MiB is accepted |

## Left out

- The database: Prisma's `findUnique` and `create` become the methods of `Store.WishStore` over a map from slug to record. The database itself, its failures ("store unavailable" exceptions become the generic 500 path and are not modelled), and the race between concurrent requests that pick the same slug are not modelled.
- The text of Prisma's unique-constraint error is a constant (`Store.DuplicateSlugError`); the real message depends on the driver.
- `req.json()`, `req.formData()`, `file.arrayBuffer()` and `Buffer.toString('base64')` are inputs: their results, or the message of the error they throw, are fields of the request or of the file.
- WishesRoute.Decode: a JSON body is modelled with string-valued fields only. Non-string JSON values, whose `toString()` the code would use, and non-object bodies are not modelled. Repeated multipart keys are not modelled either; `form.get` returns the first value.
- JsString.AsciiLower: lower-cases ASCII letters only; the full Unicode case mapping of `toLowerCase` is not modelled. That mapping turns some non-ASCII letters into ASCII ones: the Kelvin sign U+212A becomes `k`, and U+0130 becomes `i` followed by U+0307. For names or slugs holding such letters the code derives a slug from them where the model drops them (a name that is just the Kelvin sign gives `k` in the code and `wish` in the model). Tone matching is unaffected: no tone name contains `k`, and U+0130 leaves U+0307 behind, so no non-ASCII spelling lower-cases to `sweet`, `fun` or `poetic`.
- JsString.Take: counts Unicode scalar values, whereas `slice` and `length` count UTF-16 code units. The two differ only for characters outside the Basic Multilingual Plane, such as an emoji in a name.
- WishesRoute.EstimatedSize: uses `length` in scalar values for the same reason. For base64 text, which is ASCII, it agrees with the code.
- `process.env.NEXT_PUBLIC_SITE_URL` is a parameter of `Finish`, `Handle` and `Post`.
- The rest of `src/app/og.png/route.ts`: the random decorative circles (`Math.random`), the SVG template and the response headers are presentation only. The model covers the two text nodes placed in the SVG.
- The other files of the repository (the page components, metadata, manifest, sitemap, robots and deployment configuration) are not part of this model.
