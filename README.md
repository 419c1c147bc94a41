# instabot core, modelled in Dafny

instabot composes an Instagram carousel and publishes it without anyone
involved. Its pipeline, `generateAndPost`, runs these steps:
1. It checks the environment.
2. It asks a text model for a draft. The draft is ten blocks separated by `---`: an image keyword, a title, six paragraphs, a caption and hashtags.
3. It parses the draft.
4. It draws a cover with the title.
5. It searches Pixabay for six backgrounds. When the query finds nothing, it falls back once to a generic term.
6. It draws six panels, each with one paragraph in a gradient band.
7. It publishes the seven images as a carousel: it uploads each image to Cloudinary, creates one Graph API item per hosted URL, creates the carousel, and polls `media_publish` up to five times.

This project models all of that logic, which lives in `src/lib/instagramgen.js`, and proves properties of it. Every collaborator becomes an input:
- `ctx.measureText` becomes a `Measure`: the width of a string at a font size, one function per face.
- The model's reply becomes a `GenResponse`.
- Whether each background can be loaded becomes a map from URL to size.
- Pixabay's replies become `Reply` values. `Math.random` becomes an index into the fallback terms.
- The host's and Graph API's replies become functions from call number to reply.
- The environment becomes a map, plus two flags for the files on disk.

Modules, one per file:
- `JsString` (`jsstring.dfy`): the JavaScript string built-ins the code relies on:
  - `trim` and the `\s` class, with the same white-space set;
  - `split` as a left-to-right scan, and `join`;
  - the decimal rendering of numbers in template strings.
- `LineWrap` (`wrap.dfy`): `wrapTextLines`, as a loop and as the greedy partition it computes.
- `Layout` (`layout.dfy`): the font-fitting loops, the cover crop, the text start positions, `drawPostImage` and `drawCoverImage`.
- `Search` (`search.dfy`): the query sanitiser, the request URL, `pixabayImageSearch` and its fallback.
- `Draft` (`draft.dfy`): `generateText`'s choice of reply field, the parse of the draft, and the posted caption.
- `Publish` (`publish.dfy`): `publishToInstagram`, as three loops proved against specification functions, plus lemmas on the sequence of calls.
- `Pipeline` (`pipeline.dfy`): the environment check and `generateAndPost`.

Three behaviours of the code that are easy to miss, and that the model keeps:
- The fitting loops. When no size fits, the loop variable ends one step below the minimum: at 15 for panels and at 18 for the cover. The font was last set to the size before that (17px, or bold 20px on the cover), and the lines are wrapped and drawn at that size. The line pitch uses the loop variable (15 · 1.2 or 18 · 1.2). `TextBlock` records both: `fontSize` is the loop variable and `faceSize` is the size drawn.
- A fallback search that fails. The fallback's promise is returned from inside the primary's `try` without being awaited, so it leaves the `try` unsettled. Its rejection settles after the `try` has exited, is never seen by the `catch`, and so is never turned into the timeout error. `FallbackThrown` models it as a separate error.
- The upload file names. The name is computed at line 276 and passed to `uploadToPublicHost`, but the request that function sends carries only the image and the upload preset. An `Upload` call records the name as an argument; the host never sees it.

## Model

| member | source | states |
|---|---|---|
| JsString.Trim | src/lib/instagramgen.js:446 | the result has no white space at either end, is no longer than the input, and a string that is already trimmed is unchanged |
| JsString.TrimPadded | src/lib/instagramgen.js:446 | trimming removes white space padding on both sides and nothing else: a trimmed, non-empty string padded with white space trims back to itself |
| JsString.JoinSplit | src/lib/instagramgen.js:94 | joining the pieces of `s.split(sep)` with `sep` gives back `s`, so the split loses no characters |
| JsString.SplitJoin | src/lib/instagramgen.js:328 | splitting a join gives back the parts when no part lets the separator appear across its end |
| JsString.SplitFromPlain | src/lib/instagramgen.js:446 | a string without the separator splits into exactly one piece |
| JsString.DecimalRoundTrip | src/lib/instagramgen.js:276 | reading the decimal digits of `${n}` back gives `n`, so distinct numbers render distinctly |
| LineWrap.Words | src/lib/instagramgen.js:94 | `text.split(' ')` has at least one piece, even for the empty text |
| LineWrap.WrapTextLines | src/lib/instagramgen.js:93-108 | the loop's lines are `Wrap`, the greedy partition of the words, and there is at least one line |
| LineWrap.GroupsSound | src/lib/instagramgen.js:97-105 | the lines cut the words into non-empty consecutive groups, in order. Every word added after a line's first one fitted, with its trailing space, within `maxWidth`. Every line was closed only because the next word did not fit. |
| LineWrap.GreedyUnique | src/lib/instagramgen.js:97-105 | any partition of the words with those two properties is the one the wrapper builds |
| LineWrap.WrapNonEmpty | src/lib/instagramgen.js:106-107 | the wrapper always returns at least one line |
| LineWrap.WideWordAlone | src/lib/instagramgen.js:99-101 | for a monotone measure, a word wider than `maxWidth` (with its trailing space) sits alone on its own line and is never broken |
| LineWrap.WrapJoin | src/lib/instagramgen.js:94-106 | for non-empty words without white space, separated by single spaces, joining the lines with `' '` gives back the text, words in order |
| LineWrap.WrapLineStable | src/lib/instagramgen.js:93-108 | wrapping one produced line of such text again at the same size gives that line alone |
| Layout.FirstFit | src/lib/instagramgen.js:150-156 | the size the loop ends with: at most the start and of the same parity. It fits when it is at least the minimum. Every larger size tried does not fit. When the loop ends below the minimum, it is within one step below it: the last size tried was at least the minimum. |
| Layout.FitFont | src/lib/instagramgen.js:147-156 | the loop ends at `FirstFit` of the height test. Its lines are the wrap at that size, or at the last size tried (two larger) when nothing fits. |
| Layout.FirstFitEnds | src/lib/instagramgen.js:150-156 | the end size lies in `[minSize - 2, start]`. It is below `minSize` exactly when no size tried fits. |
| Layout.FirstFitMonotone | src/lib/instagramgen.js:154 | a test that passes more sizes never yields a smaller font |
| Layout.TallerBoxLargerFont | src/lib/instagramgen.js:154 | a taller height budget never yields a smaller font for the same text |
| Layout.PanelSizes | src/lib/instagramgen.js:147-156 | the panel size is the first of 35, 33, …, 17 that fits. It is 15 exactly when none of them fits. |
| Layout.CoverSizes | src/lib/instagramgen.js:187-197 | the cover size is the first of 60, 58, …, 20 that fits. It is 18 exactly when none of them fits. |
| Layout.CoverCrop | src/lib/instagramgen.js:121-125 | the scaled background keeps the image's aspect ratio: it is the image scaled by `max(1080/w, 1080/h)`, at least 1080 in both dimensions and exactly 1080 in one. The offsets are ≤ 0 and centre the overflow. |
| Layout.CropFacts | src/lib/instagramgen.js:121-123 | `max(1080/w, 1080/h)` scales both sides to at least 1080 and one side to exactly 1080 |
| Layout.PanelStartY | src/lib/instagramgen.js:158-162 | the block is centred in the bottom band, or sits a third of the free space down in the top band. A block no taller than the band lies inside it. |
| Layout.CoverStartY | src/lib/instagramgen.js:199-201 | the cover block is vertically centred. A block that fits lies between 10% and 90% of the height. |
| Layout.DrawPostImage | src/lib/instagramgen.js:110-175 | a background that cannot be loaded is an error. Otherwise the panel carries the crop, the loop's final size, the size the lines are drawn at (between 16 and 35), the lines wrapped at that size and the band position. When the text fits, it lies inside the band. |
| Layout.DrawCoverImage | src/lib/instagramgen.js:177-214 | the title is fitted from 60px in the bold face, drawn at a size between 20 and 60 with the lines wrapped at that size, and centred. When it fits, it lies within the middle 80% of the height. |
| Search.StripSymbols | src/lib/instagramgen.js:23 | what remains is letters, digits and white space, and keeps every letter and digit of the input in order. A single character is kept exactly when it is a letter, digit or white space. |
| Search.StripAppend | src/lib/instagramgen.js:23 | stripping a concatenation strips each part in order; with the single-character case this fixes the result on every input |
| Search.CollapseSpaces | src/lib/instagramgen.js:23 | empty exactly for empty input. The first character is `+` exactly when the input starts with white space. |
| Search.CollapseRunLaw | src/lib/instagramgen.js:23 | a maximal run of white space followed by a non-space or the end becomes one `+`, and the rest is collapsed on its own |
| Search.CollapseKeeps | src/lib/instagramgen.js:23 | a character that is not white space is kept, and the rest is collapsed on its own |
| Search.CollapseNoSpace | src/lib/instagramgen.js:23 | a string without white space is left unchanged |
| Search.CollapseShape | src/lib/instagramgen.js:23 | collapsing letters, digits and white space leaves letters, digits and single `+` separators |
| Search.Sanitize | src/lib/instagramgen.js:23 | the sanitised query holds only ASCII letters, digits and `+`, never two `+` in a row, and every letter and digit of the query in order |
| Search.AlnumsTrim | src/lib/instagramgen.js:23 | trimming deletes no letter or digit |
| Search.AlnumsCollapse | src/lib/instagramgen.js:23 | collapsing white space deletes no letter or digit |
| Search.SanitizeWords | src/lib/instagramgen.js:23 | words of letters and digits joined by single spaces are sent joined by `+` |
| Search.SearchUrl | src/lib/instagramgen.js:25 | the request starts with the endpoint and the key, followed by `&q=` and the query |
| Search.SearchUrlFields | src/lib/instagramgen.js:25 | when key and query contain no `&`, the URL splits on `&` into exactly the key, query, image type, count and safesearch fields |
| Search.SanitizedQueryField | src/lib/instagramgen.js:23-25 | a sanitised query can never inject a parameter: when the key contains no `&`, the URL always splits into the five fields |
| Search.PrimaryRejectionAsWritten | src/lib/instagramgen.js:51-54 | as written, a rejection becomes the timeout error exactly when its name is `AbortError`; any other rejection is rethrown as itself |
| Search.PrimaryRejection | src/lib/instagramgen.js:29-55 | corrected: the request's own timeout (`TimeoutError`) and an abort (`AbortError`) both become the timeout error. Any other rejection is passed on. |
| Search.TimeoutMissedAsWritten | src/lib/instagramgen.js:29-55 | a primary request stopped by its own 10-second timeout fails the search with the thrown `TimeoutError`, not the timeout error; with the corrected catch it is the timeout error |
| Search.ImageSearchCorrected | src/lib/instagramgen.js:29-55 | corrected search: the same requests, and a rejected primary is reported through the corrected catch. Every other outcome is the search's own. |
| Search.FallbackSearch | src/lib/instagramgen.js:59-77 | one request for the chosen generic term. It succeeds exactly when the reply is `ok` with `hits`, and the result is those hits. A rejection fails with its own name, a non-`ok` reply with its status, and an `ok` reply without `hits` as malformed. |
| Search.ImageSearch | src/lib/instagramgen.js:15-56 | a missing key fails before any request. Otherwise the first request is the sanitised query, and at most two requests are made. A rejected primary fails with the catch as written, after one request. A non-`ok` primary fails with its status, after one request. A primary with no hits is followed by exactly the fallback search's request, and the search's result is the fallback's. |
| Search.FallbackExactlyOnNoHits | src/lib/instagramgen.js:42-46 | a second request is made exactly when the primary answered `ok` with no hits, and it asks for one of the six fallback terms |
| Search.HitsPassThrough | src/lib/instagramgen.js:48-49 | a primary reply with hits is returned as it is, however few hits, after one request |
| Search.SearchResultFromReplies | src/lib/instagramgen.js:42-49 | a successful search returns the primary's non-empty hits, or the fallback's hits after an empty primary |
| Draft.GenerateText | src/lib/instagramgen.js:217-230 | the text is the first non-empty of `text`, `parts[0].text` and `contents[0].text`. It fails exactly when all three are empty. |
| Draft.TrimAll | src/lib/instagramgen.js:446 | element `i` is the trim of piece `i`, for every piece |
| Draft.NonEmpty | src/lib/instagramgen.js:446 | `filter(Boolean)` keeps only non-empty strings, all drawn from its input, and keeps every non-empty one. A single string is kept exactly when it is not empty. |
| Draft.NonEmptyAppend | src/lib/instagramgen.js:446 | filtering a concatenation filters each part, in order. With the single-string case this fixes the result: the non-empty strings, in their order. |
| Draft.Segments | src/lib/instagramgen.js:446 | every segment is non-empty and trimmed |
| Draft.SegmentsOfPieces | src/lib/instagramgen.js:446 | the segments are exactly the non-empty trimmed pieces of `split('---')`: each is one of them, and none is missing |
| Draft.ParseDraft | src/lib/instagramgen.js:446-451 | fails exactly when there are fewer than 10 segments, reporting their count. Otherwise the post's fields are the first 10 segments; extra segments are ignored. |
| Draft.FieldsOfSegments | src/lib/instagramgen.js:475-486 | segments map by position: image word 0, title 1, paragraphs 2–7, caption 8, hashtags 9 |
| Draft.PostCaption | src/lib/instagramgen.js:475 | the posted caption is the caption, then `\n\n`, then the hashtags |
| Draft.ParseRender | src/lib/instagramgen.js:420-451 | a post whose fields are non-empty, trimmed and free of `---`, written in the requested format, parses back to itself |
| Draft.SplitBlocks | src/lib/instagramgen.js:446 | splitting blocks joined by `\n---\n` and trimming the pieces gives the blocks back |
| Publish.FirstEmpty | src/lib/instagramgen.js:261-306 | the first missing reply: every earlier one is present |
| Publish.UploadAll | src/lib/instagramgen.js:275-281 | the upload loop computes `Uploads`: the host check on the first upload, then images in order, each with its computed file name, stopping at the first missing `secure_url` |
| Publish.CreateItems | src/lib/instagramgen.js:286-311 | the item loop computes `Items`: one item per URL in order, stopping at the first missing `id` |
| Publish.Carousel | src/lib/instagramgen.js:318-338 | one carousel call with the caption. It fails with `CarouselFailed` exactly when no id comes back, and otherwise yields that id. Its `children` splits on `,` back into the ids. |
| Publish.ChildrenSplit | src/lib/instagramgen.js:328 | `children` splits on `,` back into the item ids, in order |
| Publish.PollPublish | src/lib/instagramgen.js:347-392 | the poll loop computes `PollFrom` from attempt 0 |
| Publish.Decisive | src/lib/instagramgen.js:351-386 | the first attempt whose reply is not "not ready", or 5 |
| Publish.PollOutcome | src/lib/instagramgen.js:347-392 | one publish call per attempt up to and including the decisive reply. The outcome is that reply's id or status. With no decisive reply, all 5 attempts are made and the poll is exhausted. |
| Publish.PollBounded | src/lib/instagramgen.js:347-352 | between 1 and 5 publish calls |
| Publish.PollSucceedsIff | src/lib/instagramgen.js:371-386 | the poll returns an id exactly when some reply is `ok` with an `id` and every reply before it was "not ready"; the id is that reply's |
| Publish.PollStopsOnFatal | src/lib/instagramgen.js:381-386 | any other failure ends the poll with its status, after no further call |
| Publish.PollExhaustedIff | src/lib/instagramgen.js:390-392 | the distinct exhausted error comes exactly from 5 consecutive "not ready" replies |
| Publish.PublishToInstagram | src/lib/instagramgen.js:271-393 | the whole sequence computes `Publication`: uploads, items, carousel, poll |
| Publish.PhaseOrder | src/lib/instagramgen.js:275-392 | calls go uploads, items, carousel, publish, and never back |
| Publish.UploadsSucceed | src/lib/instagramgen.js:233-281 | uploads get through exactly when the host is configured (or there is nothing to upload) and every image gets a URL; then the URLs are the host's replies in order |
| Publish.ItemsSucceed | src/lib/instagramgen.js:286-311 | items get through exactly when every URL gets an id; then the ids are in URL order |
| Publish.PublishSucceedsIff | src/lib/instagramgen.js:271-393 | publishing succeeds exactly when every phase does and the poll returns an id |
| Publish.PublishedShape | src/lib/instagramgen.js:275-392 | a successful run made exactly these calls: one upload per image in order, one item per hosted URL in the same order, one carousel whose `children` are those ids joined by `,`, then the poll |
| Publish.AbortIsLastCall | src/lib/instagramgen.js:237-338 | an unconfigured host fails before any call. A missing URL or id is the last call made, with no item, carousel or publish call after it. A carousel without an id is followed by no publish call. |
| Publish.FileName | src/lib/instagramgen.js:276 | image 0 is named `cover.png`. Every other image is named `output_post_…png`. |
| Publish.FileNamesDistinct | src/lib/instagramgen.js:276 | the names computed for distinct images are distinct. This is a fact about the naming only: `uploadToPublicHost` does not send the name. |
| Pipeline.CheckEnvironment | src/lib/instagramgen.js:398-418 | the check loop computes `SetupCheck`: variables in list order, then the cover, then the font |
| Pipeline.SetupPasses | src/lib/instagramgen.js:397-418 | the checks pass exactly when all six variables are set and both files exist |
| Pipeline.MissingIsFirst | src/lib/instagramgen.js:398-418 | a reported variable is unset and every variable before it is set. A missing file is reported only after all variables are set. |
| Pipeline.DraftOf | src/lib/instagramgen.js:446-451 | a parsed draft has six paragraphs and non-empty, trimmed fields |
| Pipeline.PanelPosition | src/lib/instagramgen.js:468 | the band is at the bottom on even panels and at the top on odd ones |
| Pipeline.DrawPanel | src/lib/instagramgen.js:468-469 | panel `i` carries its background and text, with the band at the bottom for even `i` and at the top for odd `i` |
| Pipeline.DrawCover | src/lib/instagramgen.js:456 | the cover carries the title |
| Pipeline.DrawPanels | src/lib/instagramgen.js:465-472 | the six panels use `urls[i]` and paragraph `i` with alternating bands. The loop fails exactly when some background cannot be loaded, reporting the first such URL. |
| Pipeline.PostDraft | src/lib/instagramgen.js:456-486 | the searches made are the image search's. Each of these stops before any publishing call, with its own error: a failed search, fewer than 6 hits, or a background that cannot be loaded (the first such URL is reported). Otherwise the cover and then the six panels are published in order. The run reports the publication's id with the draft's fields, or `Publishing` of its error. |
| Pipeline.ComposeAndPublish | src/lib/instagramgen.js:465-479 | with six URLs or more: a background that cannot be loaded stops before any publishing call, reporting the first such URL. Otherwise the cover and six panels are published in order, and the run reports the id with the draft's fields, or `Publishing` of the error. |
| Pipeline.Reported | src/lib/instagramgen.js:479-486 | a published id becomes the outcome with the draft's title, image word, caption and hashtags. A publishing error is reported as such. |
| Pipeline.PostedSucceedsIff | src/lib/instagramgen.js:456-486 | a post goes through exactly when the search finds six backgrounds, all of them can be loaded, and the publication returns an id |
| Pipeline.GenerateAndPost | src/lib/instagramgen.js:396-487 | setup failures stop the run before any request. Draft failures stop it after the text-generation request, before any search or publishing request. Otherwise the run is `PostDraft` of the parsed draft, with the host configured. |
| Pipeline.FewHitsFail | src/lib/instagramgen.js:459-462 | 1 to 5 primary hits skip the fallback and are returned as they are, so the run fails the "need 6" check |
| Pipeline.OutcomeFields | src/lib/instagramgen.js:475-486 | the result's image word, title, caption and hashtags are segments 0, 1, 8 and 9. Panel `i` gets segment `i + 2`. The posted caption is `p[8] + "\n\n" + p[9]`. |

## Left out

- Network and SDK I/O is not modelled: `fetch` to Pixabay, Cloudinary and the Graph API, and the Gemini client. Each reply is an input. A rejected `fetch` or a body that is not JSON during publishing is not modelled, and neither are `response.text()` or `response.json()` failing in the search.
- Canvas rasterisation is not modelled: `loadImage` of the cover, `drawImage`, gradients, shadows, `fillText`, `toBuffer` and `registerFont`. An `Image` value records what would be drawn.
- `setTimeout` pacing between calls is left out. It is timing only and does not change which calls are made or the outcome.
- `console` logging is left out, and so is the text of error messages. Errors are datatype constructors carrying the values the messages report.
- `Math.random` becomes a chosen index into the six fallback terms.
- `fs.existsSync` for the cover and the font becomes two flags of the environment.
- `getTextColor` is never called and reads canvas pixels, so it is not part of this model.
- `src/app/api/generate/route.js` is not part of this model. It is an HTTP wrapper that turns exceptions into a 500 response.
- `next.config.mjs` is not part of this model. It is build configuration only.
- Arithmetic is over exact reals. IEEE-754 rounding of `0.45`, `0.9`, `0.8`, `1.2` and the crop scale is not modelled.
- The fallback's `data.hits.map(...)` on a body without `hits` becomes `FallbackMalformed` rather than a `TypeError`. Hits without a `largeImageURL` are not modelled.
- Layout.PanelSizes: stated for any fit test. The link to a particular text is that test being `FitsAt(m, text, PanelMaxHeight)`, as in DrawPostImage.
- Layout.CoverSizes: stated for any fit test. The link to a particular title is that test being `FitsAt(m, title, CoverMaxHeight)`, as in DrawCoverImage.
- Pipeline.DrawCover: it states only that the cover carries the title. The fitted size, lines and position are stated by Layout.DrawCoverImage, which it calls.
- Pipeline.DrawPanel: it states only the panel's background, text and band. The crop, size, lines and position are stated by Layout.DrawPostImage, which it calls.

## Findings

| source | as written | input that shows it | evidently intended | confidence | as-written member | corrected member |
|---|---|---|---|---|---|---|
| src/lib/instagramgen.js:29-55 | the primary search's `catch` turns only an error named `AbortError` into "Pixabay timeout" | the request's own `AbortSignal.timeout(10000)` fires: `fetch` rejects with a `DOMException` named `TimeoutError`, which is rethrown unchanged | the timeout set on the request is reported as the timeout error | medium; not executed | Search.ImageSearch, through Search.PrimaryRejectionAsWritten (exhibited by Search.TimeoutMissedAsWritten) | Search.ImageSearchCorrected, through Search.PrimaryRejection |
