# View engagement scraper, modelled in Dafny

The scraper is a batch job over two web services. It pulls every record of one view of an
Airtable table, page by page, following the `offset` cursor. For each record it takes the
"Asset Link" field and turns the YouTube URL into a video id. It asks the YouTube Data API for
that video's view, like and comment counts. It then writes the counts back to the table in
PATCH requests of at most ten records, pausing after each request.

The model keeps the job's logic and replaces each service by an input:

- the table store's listing is the finite sequence of pages it answers;
- the YouTube API is a function from video id to its answer (status and `items`);
- a URL arrives already split as `urlparse` splits it (network location, path, decoded query pairs);
- the write requests and pauses are recorded as a trace of `Patch(batch)` and `Sleep` events.

Modules, one file each:

- `wrappers.dfy`, `Wrappers`: `Option`, standing for Python's `None` next to a value.
- `py_str.dfy`, `PyStr`: the Python string operations the extractor uses. These are `in`,
  `startswith`, `split` (left to right, matches never overlapping) and `strip`.
- `video_id.dfy`, `VideoId`: `extract_video_id`.
- `youtube_stats.dfy`, `YouTubeStats`: what `get_youtube_stats` decides from the API's answer.
- `airtable_fetch.dfy`, `AirtableFetch`: the cursor loop of `get_airtable_records`, as a method
  with a loop, proved against `Flatten` and `PagesRead`.
- `airtable_write.dfy`, `AirtableWrite`: the loop of `batch_update_airtable`, as a method with a
  loop, proved against the reference slicing `Chunks`.
- `scraper.dfy`, `Scraper`: the per-record loop of `main` (a method proved against `UpdatesOf`)
  and the whole run.

Behaviour of the code worth knowing:

- The extractor can return an empty id: `https://youtu.be/` and `https://www.youtube.com/live/`
  give `""`, not `None`. `main` then skips the record because the id is falsy.
- For a live URL the id is taken after the last `/live/` that `split` finds, not after the first
  one. So `/live/abc/live/xyz` gives `xyz`. `ExtractLivePlain` therefore assumes that the rest
  of the path holds no `/live/`.
- Hosts are matched by substring, so any network location containing `youtu.be` is a short link.
- A short link's id keeps any inner `/`; only the leading and trailing ones are cut.

## Model

| member | source | states |
|---|---|---|
| PyStr.Contains | View_engagement_scraper_old.py:24-28 | Python's `t in s` on strings, scanning from the left |
| PyStr.ContainsAt | View_engagement_scraper_old.py:24 | `t in s` holds exactly when `t` sits at some position of `s` |
| PyStr.StartsWith | View_engagement_scraper_old.py:26 | `path.startswith(p)`: `p` is a prefix of the text |
| PyStr.Split | View_engagement_scraper_old.py:27 | `str.split` always gives at least one piece, and the first piece is a prefix of the text |
| PyStr.SplitJoin | View_engagement_scraper_old.py:27 | joining the pieces of a split with the separator gives the text back |
| PyStr.SplitPiecesFree | View_engagement_scraper_old.py:27 | no piece of a split contains the separator |
| PyStr.SplitLeftmost | View_engagement_scraper_old.py:27 | split scans from the left: no match of the separator starts inside the first piece, so `"/live/live/"` splits as `["", "live/"]` |
| PyStr.FirstPieceMaximal | View_engagement_scraper_old.py:27 | the first piece of `s.split('/')` runs up to the first `/` or to the end of `s` |
| PyStr.SplitFirstPiece | View_engagement_scraper_old.py:27 | the first piece of `(a + b).split(c)` is `a` when `a` has no `c` and `b` is empty or starts with `c` |
| PyStr.LStrip | View_engagement_scraper_old.py:25 | the result is a suffix of the text, everything cut is the stripped character, and it does not start with that character |
| PyStr.RStrip | View_engagement_scraper_old.py:25 | the result is a prefix of the text, everything cut is the stripped character, and it does not end with that character |
| PyStr.Strip | View_engagement_scraper_old.py:25 | `strip("/")`: the result neither starts nor ends with the stripped character |
| PyStr.StripFrame | View_engagement_scraper_old.py:25 | `strip` gives a middle part that neither starts nor ends with the character, framed in the text by runs of it |
| VideoId.FirstValue | View_engagement_scraper_old.py:29-30 | `None` exactly when no `v` pair has a non-blank value; otherwise the value of the first pair called `v` with a non-blank value |
| VideoId.FirstValueSkips | View_engagement_scraper_old.py:29-30 | pairs before the first non-blank `v` pair do not affect the result, so the first such pair wins |
| VideoId.ExtractVideoId | View_engagement_scraper_old.py:20-31 | an id is only found for a present, non-empty URL whose host contains `youtu.be` or `youtube.com`; otherwise `None` |
| VideoId.ExtractShortLink | View_engagement_scraper_old.py:24-25 | a `youtu.be` host gives the path with leading and trailing `/` cut, even when it also contains `youtube.com`; the id may be empty |
| VideoId.ExtractShortLinkPlain | View_engagement_scraper_old.py:24-25 | `https://youtu.be/<id>` with a slash-free id gives exactly `<id>` |
| VideoId.LiveId | View_engagement_scraper_old.py:27 | `path.split('/live/')[-1].split('/')[0]`; the result never contains `/` |
| VideoId.ExtractLive | View_engagement_scraper_old.py:26-27 | a `youtube.com` path starting with `/live/` gives the last piece of `path.split('/live/')` cut at its first `/`: a slash-free prefix of that piece that reaches its first `/` or its end |
| VideoId.ExtractLivePlain | View_engagement_scraper_old.py:26-27 | `/live/<id>/extra` gives exactly `<id>` when the rest holds no `/live/` |
| VideoId.ExtractWatch | View_engagement_scraper_old.py:28-30 | any other `youtube.com` path gives the first non-blank `v` value of the query, or `None` exactly when there is none |
| VideoId.ExtractWatchPlain | View_engagement_scraper_old.py:28-30 | `https://www.youtube.com/watch?v=<id>&...` gives exactly `<id>` |
| YouTubeStats.Counter | View_engagement_scraper_old.py:44-46 | `stats.get(key, 0)`: the counter's value, or 0 when the key is missing |
| YouTubeStats.GetYouTubeStats | View_engagement_scraper_old.py:38-48 | the lookup succeeds exactly when the status is 200 and `items` is present and non-empty |
| YouTubeStats.StatsCounters | View_engagement_scraper_old.py:41-47 | on success each counter is read from the first item on its own, 0 when absent |
| YouTubeStats.NoCountersIsZeroSuccess | View_engagement_scraper_old.py:41-47 | an item without counters gives the all-zero triple, which is a success, not `None` |
| YouTubeStats.FirstItemOnly | View_engagement_scraper_old.py:42 | items after the first do not change the result |
| AirtableFetch.HasMore | View_engagement_scraper_old.py:63-72 | a page's `offset` is truthy (present and non-empty), so the loop goes on and the next request carries it |
| AirtableFetch.BatchOf | View_engagement_scraper_old.py:68 | `data.get("records", [])`: a page without `records` contributes nothing |
| AirtableFetch.PagesRead | View_engagement_scraper_old.py:58-73 | the loop reads pages up to and including the first one without a truthy `offset`, and every earlier page has one |
| AirtableFetch.Flatten | View_engagement_scraper_old.py:55-69 | the `all_records` list: every given page's records, concatenated in arrival order |
| AirtableFetch.FlattenAppend | View_engagement_scraper_old.py:68-69 | the records of two page runs are the records of the first followed by those of the second |
| AirtableFetch.FlattenNext | View_engagement_scraper_old.py:68-69 | `extend` with one more page appends its records (none when `records` is missing) |
| AirtableFetch.Cursor | View_engagement_scraper_old.py:56-71 | the `offset` request k carries: none on the first, then the previous page's `offset` |
| AirtableFetch.GetAirtableRecords | View_engagement_scraper_old.py:52-75 | the result is every read page's records in arrival order; the first request has no cursor and each later one carries the previous page's `offset` |
| AirtableFetch.IgnoresLaterPages | View_engagement_scraper_old.py:71-73 | pages after the stopping page are never read |
| AirtableFetch.PagesReadUnique | View_engagement_scraper_old.py:71-73 | the stopping point is determined by "last page has no cursor, all before it have one" |
| AirtableFetch.TwoPages | View_engagement_scraper_old.py:58-75 | a page with a cursor then one without give the first page's records followed by the second's |
| AirtableWrite.Chunks | View_engagement_scraper_old.py:86-87 | reference slicing: the first ten entries, then the slices of the rest |
| AirtableWrite.ChunksConcat | View_engagement_scraper_old.py:86-87 | the slices laid end to end give back the update list, in order |
| AirtableWrite.ChunksSizes | View_engagement_scraper_old.py:86-87 | every slice has one to ten entries, and all but the last have exactly ten |
| AirtableWrite.ChunksCount | View_engagement_scraper_old.py:86 | there are ceil(n/10) slices |
| AirtableWrite.ChunkAt | View_engagement_scraper_old.py:86-87 | slice k is Python's clamped slice `s[10k:10k+10]` |
| AirtableWrite.EventsSnoc | View_engagement_scraper_old.py:88-89 | one more slice adds one request and one pause at the end |
| AirtableWrite.EventsShape | View_engagement_scraper_old.py:88-89 | request k carries slice k and is followed by exactly one pause |
| AirtableWrite.SingleBatch | View_engagement_scraper_old.py:86-89 | one to ten entries go out in one request followed by one pause |
| AirtableWrite.TwentyFive | View_engagement_scraper_old.py:86-89 | 25 entries go out as slices of 10, 10 and 5, in order, each followed by a pause |
| AirtableWrite.WriteTrace | View_engagement_scraper_old.py:86-89 | everything the loop does: for each slice of the reference slicing, one `Patch` then one `Sleep` |
| AirtableWrite.BatchUpdateAirtable | View_engagement_scraper_old.py:79-89 | the trace is the reference slicing's requests and pauses, and it is empty exactly when the list is |
| Scraper.AssetLink | View_engagement_scraper_old.py:100-101 | `record.get("fields", {}).get("Asset Link")` |
| Scraper.Qualifies | View_engagement_scraper_old.py:103-112 | the three conditions for an update: the link is truthy, the extracted id is non-empty and the lookup is not `None` |
| Scraper.EntryFor | View_engagement_scraper_old.py:114-121 | the appended dict: the record's id, and the counters under Views, Likes and Comments |
| Scraper.Process | View_engagement_scraper_old.py:100-121 | a record gives an entry exactly when its link is truthy, the id is non-empty and the lookup succeeds; the entry copies the record id and maps the counters to Views, Likes and Comments |
| Scraper.UpdatesOf | View_engagement_scraper_old.py:97-121 | the `updates` list: the entries `Process` gives for the records, in record order |
| Scraper.FilterMapAppend | View_engagement_scraper_old.py:99-121 | the loop keeps order: results of a concatenation are the concatenated results |
| Scraper.FilterMapLength | View_engagement_scraper_old.py:99-121 | there are never more results than elements |
| Scraper.FilterMapMembership | View_engagement_scraper_old.py:99-121 | a value is appended exactly when some element produced it |
| Scraper.UpdatesMembership | View_engagement_scraper_old.py:99-121 | an update is in the list exactly when a pulled record produced it, and every qualifying record's update is there with the record's id |
| Scraper.UpdatesCons | View_engagement_scraper_old.py:99-114 | a record in front contributes its entry, if any, in front |
| Scraper.BuildUpdates | View_engagement_scraper_old.py:97-121 | the loop's `updates` list is `UpdatesOf` of the records |
| Scraper.RunSync | View_engagement_scraper_old.py:93-127 | a run pulls every page's records, builds the updates from them, and writes them with the batching trace; nothing is written when there are no updates |
| Scraper.OneOfThree | View_engagement_scraper_old.py:99-124 | of a record without link, one whose lookup fails and one that succeeds, exactly one update is built and one request sent |

## Left out

- Loading `.env` and the environment variables (lines 9-16): configuration, not logic.
- The HTTP requests and `response.json()`. The request URLs, the headers, and the `pageSize=100`
  and `view` parameters are not modelled. The answers are inputs: a page sequence and a
  function from video id to answer.
- A body that is not JSON makes `response.json()` raise. This is not modelled.
- The write response is ignored by the source and is not modelled.
- The length of `time.sleep(0.25)`: a pause is only a `Sleep` event.
- `urlparse` and `parse_qs` internals, including percent-decoding. The URL arrives split, the
  query as decoded pairs in order. Dropping blank values (`keep_blank_values=False`) is modelled
  in `VideoId.FirstValue`.
- `int()` on the counter strings. Counters arrive as natural numbers. A non-numeric string, which
  makes `int()` raise, is not modelled.
- A first item without `statistics` makes the source raise `KeyError`. The model's `Item` always
  has a `statistics` map.
- A record's field values are all taken to be URL text. A non-string "Asset Link", which would
  make `urlparse` fail, is not modelled.
- A record that qualifies for an update but has no `id` would raise `KeyError` (line 115); skipped
  records never read it. The model's `Record` always has an id.
- Endless pagination: `GetAirtableRecords` requires some page in the sequence to have no cursor.
  A server that always returns an offset would make the source loop forever.
- Repeated lookups: the YouTube API is taken to answer one id the same way throughout a run. A
  run where two lookups of the same id get different answers (a quota error, changed counts) is
  not modelled; the source calls the API once per record, without a cache.
- The `print` summaries of `main`.
