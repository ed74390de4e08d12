# xkcd-translater: the ingestion pipeline in Dafny

The service reads the xkcd Atom feed and keeps the entries it has not yet
processed. It sends each new comic to a chat-completion model and cuts a
fenced JSON block out of the model's answer. It stamps that JSON with the
comic's id, publication time and image address, and appends the result to a
record file. It then marks the id as processed and, once every new comic has
been handled, rebuilds its own Atom feed from all saved records. `GET /update`
triggers one run.

This model keeps that pipeline and replaces its surroundings:

- The two JSON files become values: `Stores.SeenFile` and `Stores.RecordFile`.
  `None` stands for a file that does not exist yet.
- The completion endpoint is an oracle, `Enrichment.Oracle`, from request to
  reply. Any reply may be a transport error. The oracle is a function, so
  within one route call the same request always gets the same reply.
- `json.loads` is an abstract partial decoder, `Enrichment.Decoder`.
- The fetched feed is the input sequence of `FeedReader.Entry` values.
- The written Atom document is reduced to the entries handed to the feed
  library (`Publisher.AtomEntry`).

Modules follow the program's components:

- `AttrSearch`: the regular-expression searches `src="(.*?)"` and
  `title="(.*?)"`, as leftmost matches with Python's `.`.
- `FeedReader`: `parse_xkcd_feed`, which filters on the processed set and
  extracts the two attributes.
- `Stores`: `load_processed`/`save_processed` and
  `load_comic_info`/`save_comic_info`.
- `Fence`: the anchored search for the JSON fence in the reply, both as a
  closed form and as the lazy search the regex engine performs.
- `Enrichment`: the request `explain_comic` sends, the decode step and the
  injection of `id`, `published` and `image_url`.
- `JsonValue`: decoded JSON, where an object is a Python dict kept in
  insertion order.
- `Template`: the whitespace compression of the content template.
- `Publisher`: the per-record lookups of `generate_atom_feed`.
- `Pipeline`: `update_comic` and the outcome classification of
  `update_route`, with the store invariants.

Behaviour of the code worth noting:

- An unseen entry whose summary lacks `src="…"` or `title="…"` is not skipped.
  `.group` on the failed search raises, so the whole read fails. The read runs
  before the `try` of `update_route`, so the exception escapes the view, and
  Flask answers with its generic 500 (`Pipeline.Outcome.Unhandled`).
- Two fenced blocks in one reply do not cause a separate extraction error. The
  anchored lazy group spans from the first opening to the last closing, so
  only the decoder can reject such a reply (`Fence.TwoBlocksReadAsOne`).
- The translated title and description are never checked before saving. Only
  `generate_atom_feed` reads `title.chinese` and `description.chinese`, and it
  does so after the record is saved and its id marked. A record without them
  makes every later feed rebuild raise (`Pipeline.UnpublishableRecordBlocksFeed`).
- `update_comic` passes a fixed model name, so the configured model name is
  not used (`Enrichment.BuildRequest`).
- At most one record per id holds only while the feed never lists one id
  twice. The processed set is loaded once per read, so a repeated new entry is
  enriched and saved twice (`Pipeline.DuplicateEntryStoredTwice`).
- After a run whose feed rebuild failed, every comic of that run is saved and
  marked seen. Triggering again with the same feed answers "nothing new", and
  the stale document is not rebuilt (`Pipeline.RerunIsNoOp`).

## Model

| member | source | states |
|---|---|---|
| `AttrSearch.Search` | main.py:65 | The result is a match of `p(.*?)"` and no match starts earlier; no result exactly when the pattern matches nowhere. |
| `AttrSearch.Extract` | main.py:72 | The extracted value has no quote and no newline and is the group of a match; extraction fails exactly when nothing matches (where `.group` raises). |
| `AttrSearch.MatchUnique` | main.py:65 | The lazy group stops at the first quote, so two matches at one position capture the same text. |
| `AttrSearch.ExtractAfterPrefix` | main.py:65 | Round trip: prefix, a quote- and newline-free value and a closing quote extract to exactly that value, whatever follows. |
| `AttrSearch.ExtractIsLeftmost` | main.py:72 | A match with no earlier match is the one returned, even when later occurrences exist. |
| `FeedReader.Unseen` | main.py:62-64 | Only entries whose id is not processed are kept, and the result is never longer than the feed. |
| `FeedReader.UnseenIsSubsequence` | main.py:58-64 | The kept entries are picked out by strictly increasing feed positions, and a position is picked exactly when its entry's id is unprocessed. |
| `FeedReader.ToComic` | main.py:65-73 | One entry becomes a comic exactly when both attributes are found. Id, title and published (from `updated`) come from the entry, the image address is the `src` value and the description is the `title` value. A missing image is reported first, and a missing `title` attribute behind a found image is reported as such. |
| `FeedReader.ComicsOf` | main.py:62-74 | All entries convert, one comic per entry in order, or the error is that of the first entry that fails. |
| `FeedReader.ParseFeed` | main.py:56-76 | The read succeeds exactly when every unprocessed entry converts; it yields one comic per unprocessed entry, in feed order, each the conversion of that entry, none of them processed; a failure reports the first failing unprocessed entry. |
| `FeedReader.ParseFeedKeepsDistinctIds` | main.py:62-74 | A feed without repeated ids yields comics without repeated ids. |
| `FeedReader.ParseFeedRepeated` | main.py:58-64 | An unprocessed entry listed twice yields its comic twice, because the processed set is loaded once. |
| `FeedReader.ParseFeedCoversUnseen` | main.py:62-74 | After a successful read, every unprocessed entry's id is among the comics' ids. |
| `FeedReader.ParseFeedAllProcessed` | main.py:62-64 | When every entry's id is processed, the read returns an empty list. |
| `Stores.LoadProcessed` | main.py:34-39 | A missing file loads as the empty set; otherwise the stored ids. |
| `Stores.SaveProcessed` | main.py:42-47 | The processed set reads back as the old set plus the id (just the id when the file was missing); nothing is removed; a repeated id changes nothing. |
| `Stores.SaveProcessedIdempotent` | main.py:42-47 | Saving the same id twice equals saving it once. |
| `Stores.SaveComicInfo` | main.py:116-132 | The record list reads back one longer, with every earlier record unchanged in place and the new record last (just the record when the file was missing). |
| `Stores.LoadComicInfo` | main.py:135-140 | A missing file loads as the empty list; otherwise the stored records. |
| `Fence.FencedBody` | main.py:191-193 | Succeeds exactly when the reply is "```json\n" + body + "\n```", optionally followed by one newline, and then returns that body. |
| `Fence.SearchFence` | main.py:191-193 | The regex engine's anchored lazy search, trying group ends from the shortest up, returns the same as the prefix/suffix strip. |
| `Fence.FencedBodyOfWrapped` | main.py:191-193 | Round trip: wrapping a body in the fence, with or without a final newline, extracts the body. |
| `Fence.TwoBlocksReadAsOne` | main.py:191-194 | A reply with two fenced blocks extracts everything between the first opening and the last closing, inner fences included. |
| `JsonValue.Assign` | main.py:196-198 | `d[k] = v` sets `k` to `v`, leaves every other key's value unchanged, keeps the key order and appends a new key at the end. |
| `JsonValue.LookupFindsKeys` | main.py:169-173 | A dict lookup finds a value exactly when the key is present (otherwise Python raises `KeyError`). |
| `JsonValue.AssignKeepsDistinctKeys` | main.py:196-198 | Assigning into a dict never creates a duplicate key. |
| `Enrichment.BuildRequest` | main.py:184-190 | The request carries the system prompt, the comic's image address and the fixed model name `google/gemini-2.0-flash-001`. The user text is the labelled title line followed by the labelled description. |
| `Enrichment.UserTextRoundTrip` | main.py:87 | Round trip: for a one-line title, the user text reads back as exactly that title and that description, so the two are neither swapped nor merged. |
| `Enrichment.InjectFields` | main.py:196-198 | Succeeds exactly on a JSON object. `id`, `published` and `image_url` then equal the comic's values whatever the model returned. Every other key passes through unchanged and no earlier key is lost. |
| `Enrichment.InjectFieldsIdempotent` | main.py:196-198 | Injecting the same comic's fields again changes nothing. |
| `Enrichment.AssignPresentIsNoop` | main.py:196-198 | Assigning a key the value it already holds leaves the dict unchanged. |
| `Enrichment.Enrich` | main.py:184-198 | Succeeds exactly when the reply arrived, is one fenced block, decodes, and decodes to an object. Each failure names the step that raised. A produced record holds the comic's `id`, `published` and `image_url`, and every other key as decoded. |
| `Template.SplitLines` | main.py:147 | No line returned by `splitlines` contains a line-break character. |
| `Template.JoinSplitLines` | main.py:147 | Joining the lines of `splitlines` with nothing is exactly deleting every line-break character; `\r\n` and lone breaks alike. |
| `Template.ReplaceRemovesOnlySpaces` | main.py:147 | The double-space replacement removes only spaces: the other characters survive in order, the text never grows, and no new character appears. |
| `Template.ReplaceSpaceRun` | main.py:147 | One non-overlapping pass turns a run of n spaces into ceil(n/2) spaces. |
| `Template.Compress` | main.py:147 | The compressed template is the single double-space pass applied to the template with every line-break character deleted. It has no line breaks and is no longer than the template. Apart from dropped line breaks, only spaces were removed. |
| `Template.CompressNotIdempotent` | main.py:147 | Four spaces become two, and compressing again gives one: the step is not idempotent. |
| `Publisher.EntryOf` | main.py:166-174 | A record yields a feed entry exactly when it is publishable: it has `id`, `published`, `title.chinese` and `description.chinese`. The entry's id and published time are the record's, its title is `title.chinese` and its summary is `description.chinese`. |
| `Publisher.BuildEntriesSpec` | main.py:166-176 | The feed loop succeeds exactly when every record yields an entry, giving one entry per record, in store order. |
| `Pipeline.EnrichComic` | main.py:184-198 | The reply consulted is the oracle's answer to the request built from the prompt and the comic. Enrichment succeeds exactly when that reply arrived, holds one fenced block, decodes, and decodes to an object. A lost request, a missing block, an undecodable block and a non-object each abort with their own failure. A produced record holds the comic's `id`, `published` and `image_url`, and every other key as the model returned it. |
| `Pipeline.Persist` | main.py:200-201 | The record is appended to the record file and the id is added to the processed set; the feed document is untouched. |
| `Pipeline.PersistKeepsSeenHaveRecords` | main.py:200-201 | For a record carrying its comic's id, every processed id has a saved record after each of the two writes, in program order. |
| `Pipeline.MarkFirstBreaksSeenHaveRecords` | main.py:200-201 | In the opposite order, marking a fresh id before saving its record would leave a processed id without a record. |
| `Pipeline.GenerateFeed` | main.py:152-176 | The document is replaced by the entries of all saved records exactly when every record is publishable; otherwise the old document stays and the files are untouched. |
| `Pipeline.UpdateComic` | main.py:179-203 | Records appended are the enrichments of a prefix of the comics, in order. The processed set grows by exactly that prefix's ids. The run stops early exactly on the first failing enrichment, and then the feed is not rebuilt. Only a run over all comics rebuilds the feed. |
| `Pipeline.RunSpecCons` | main.py:183-201 | One successful comic followed by a run over the rest is a run over all comics. |
| `Pipeline.UpdateRoute` | main.py:216-226 | A failing read escapes unhandled. An empty read is a 200 no-op that does not touch the store. Otherwise the store is the one `update_comic` leaves, and the answer is "updated" (200) exactly when that run completed, else the run's failure (500). |
| `Pipeline.EnrichWithStampsIds` | main.py:196 | Every record the enrichment produces carries the id of the comic it came from. |
| `Pipeline.AddedRecordIds` | main.py:196-200 | The records a run appends carry exactly the ids of the comics it got through. |
| `Pipeline.UpdateComicKeepsSeenHaveRecords` | main.py:183-203 | After a run, whatever the feed and however the run ends, every processed id has a saved record. |
| `Pipeline.UpdateRouteKeepsSeenHaveRecords` | main.py:216-226 | The route keeps "every processed id has a saved record" on every outcome. |
| `Pipeline.RunKeepsAtMostOnce` | main.py:183-201 | A run over unprocessed comics with distinct ids keeps one record per id, with the saved ids equal to the processed set. |
| `Pipeline.UpdateComicKeepsAtMostOnce` | main.py:183-201 | The same for `update_comic` itself. |
| `Pipeline.UpdateRouteKeepsAtMostOnce` | main.py:219-223 | With a feed that never repeats an id, the route keeps one record per id, with the saved ids equal to the processed set. |
| `Pipeline.DuplicateEntryStoredTwice` | main.py:58-64 | A new entry listed twice in one feed is saved twice in one run, so one record per id is lost. |
| `Pipeline.RunTwice` | main.py:183-201 | A run over one comic listed twice appends its record twice. |
| `Pipeline.RunOverSuccesses` | main.py:183-201 | When every comic enriches, the run does not abort and appends one record per comic, in order. |
| `Pipeline.RouteRunsUpdateComic` | main.py:221-226 | When the read returns comics, the route's store is the one `update_comic` leaves. It answers "updated" exactly when the run completed, and otherwise reports the run's status. |
| `Pipeline.RouteNothingNew` | main.py:218-220 | When every entry of the feed is already processed, the route answers "no new comics" and changes nothing. |
| `Pipeline.FullRunMarksAll` | main.py:183-201 | A run that did not abort marks every comic it was given as processed. |
| `Pipeline.RerunIsNoOp` | main.py:219-221 | A run that got through every comic is followed, for the same feed, by a 200 no-op that changes nothing, whatever the model would answer. |
| `Pipeline.UnpublishableRecordBlocksFeed` | main.py:169-171 | A saved record lacking `title.chinese` or similar stays forever. No later run answers "updated", and the published document never changes again. |
| `Pipeline.RunNeverPublishes` | main.py:166-176 | A run starting from a store with an unpublishable record never rebuilds the feed, and the record stays. |

## Left out

- HTTP plumbing (`index`, `send_atom_feed`, `get_comics`, `app.run`, main.py:206-244) is boundary code. Of `update_route` only the outcome and status code are kept.
- Pipeline.DuplicateEntryStoredTwice: the endpoint is a function of the request, so the repeated comic gets the same reply both times. The real endpoint may answer differently or fail the second time; then the second record differs or the run aborts after the first.
- Pipeline.UpdateRoute: calls are modelled one after another, each from one store to the next. `app.run` starts Flask's threaded development server (main.py:244), so two overlapping `/update` requests can both load the same processed set and interleave their whole-file rewrites (main.py:44-47, 119-130). A late `save_comic_info` can then overwrite records the other request already marked processed, and neither `SeenHaveRecords` nor `AtMostOnce` holds.
- FeedReader.ToComic: every feed entry is assumed to carry `id`, `title`, `updated` and `summary`. The attribute accesses at main.py:63-70 raise on an entry that lacks one, and that error is not modelled.
- Pipeline.UpdateRoute: the response texts and Flask's debug traceback page are not modelled, only the outcome and its status code.
- File I/O: reads and writes are assumed to succeed and the files to hold well-formed JSON. Write failures (the re-raised exception in `save_comic_info`) and crash atomicity of the whole-file rewrite are not modelled.
- The processed file holds `list(set)`. Python leaves that order unspecified and the program only reads the array back through `set(...)`, so the model stores the set.
- `load_prompts` is a file read; the system prompt is a parameter.
- `explain_comic` (main.py:79-113) is a network call, modelled as the oracle. A reply whose content is `None` counts as a failed reply (`TransportError`), since `re.search` then raises before any write.
- `feedparser.parse` is network plus a library. The feed is the input entry sequence, and how a failed fetch shows up there belongs to that library.
- `json.loads` is an abstract decoder. JSON numbers are integers in `JsonValue.Json`; floating point is not modelled.
- Publisher.BuildEntriesSpec: feedgen's own checks of the values it is given (a non-string title, an unparsable published date) are not modelled. Neither is the order in which feedgen places entries in the written document. Only the record lookups that can raise are.
- Template rendering with Jinja and `xml.sax.saxutils.escape` (main.py:148-149) is library code. Only the compression step is modelled, and the rendered content is not part of `Publisher.AtomEntry`.
- Timestamps (`datetime.now`) and the environment configuration (main.py:26-31) are not modelled. The fixed feed metadata of `generate_atom_feed` is not modelled either.
