/** `main`: pull every record of the view, build one update per record whose "Asset Link" names
    a video the YouTube API knows, and write the updates back. The two services are inputs: the
    table store as the sequence of pages it answers, the YouTube API as a function from video id
    to its answer. */
module Scraper {
  import opened Wrappers
  import opened VideoId
  import opened YouTubeStats
  import opened AirtableFetch
  import opened AirtableWrite

  /** A row of the table: its record id and its fields. Only URL-valued fields are read, so each
      field value is kept as the URL `urlparse` would make of it. */
  datatype Record = Record(id: string, fields: map<string, SplitUrl>)

  /** One element of the write request's `records` array: the id and the new field values. */
  datatype UpdateEntry = UpdateEntry(id: string, fields: map<string, nat>)

  /** The YouTube API's answer for each video id. */
  type StatsApi = string -> StatsResponse

  const AssetLinkField: string := "Asset Link"

  /** `record.get("fields", {}).get("Asset Link")`. */
  function AssetLink(r: Record): Option<SplitUrl> {
    if AssetLinkField in r.fields then Some(r.fields[AssetLinkField]) else None
  }

  /** The entry written for a record whose lookup succeeded. */
  function EntryFor(r: Record, s: Stats): UpdateEntry {
    UpdateEntry(r.id, map["Views" := s.views, "Likes" := s.likes, "Comments" := s.comments])
  }

  /** The three conditions under which `main` appends an update for a record: its "Asset Link"
      is truthy, the id extracted from it is non-empty, and the stats lookup is not `None`. */
  predicate Qualifies(r: Record, api: StatsApi) {
    var url := AssetLink(r);
    var vid := ExtractVideoId(url);
    url.Some? && url.value.text != "" &&
    vid.Some? && vid.value != "" &&
    GetYouTubeStats(api(vid.value)).Some?
  }

  /** One turn of the loop in `main`: the entry appended for `r`, or `None` when it is skipped. */
  function Process(r: Record, api: StatsApi): (e: Option<UpdateEntry>)
    ensures e.Some? <==> Qualifies(r, api)
    ensures e.Some? ==> (e.value.id == r.id &&
      var s := GetYouTubeStats(api(ExtractVideoId(AssetLink(r)).value)).value;
      e.value.fields == map["Views" := s.views, "Likes" := s.likes, "Comments" := s.comments])
  {
    var url := AssetLink(r);
    if url.None? || url.value.text == "" then None
    else
      match ExtractVideoId(url)
      case None => None
      case Some(vid) =>
        if vid == "" then None
        else
          match GetYouTubeStats(api(vid))
          case None => None
          case Some(s) => Some(EntryFor(r, s))
  }

  /** Keep the `Some` results of `f` over `xs`, in order: the shape of a loop that appends
      to a list only for the elements that pass its checks. */
  function FilterMap<A, B>(xs: seq<A>, f: A -> Option<B>): seq<B> {
    if xs == [] then []
    else (if f(xs[0]).Some? then [f(xs[0]).value] else []) + FilterMap(xs[1..], f)
  }

  /** The `updates` list `main` builds from `records`. */
  function UpdatesOf(records: seq<Record>, api: StatsApi): seq<UpdateEntry> {
    FilterMap(records, r => Process(r, api))
  }

  /** Order is kept: filtering a concatenation concatenates the results. */
  lemma {:induction false} FilterMapAppend<A, B>(a: seq<A>, b: seq<A>, f: A -> Option<B>)
    ensures FilterMap(a + b, f) == FilterMap(a, f) + FilterMap(b, f)
    decreases |a|
  {
    if a != [] {
      FilterMapAppend(a[1..], b, f);
      assert (a + b)[0] == a[0];
      assert (a + b)[1..] == a[1..] + b;
    } else {
      assert a + b == b;
    }
  }

  /** There are never more results than elements. */
  lemma {:induction false} FilterMapLength<A, B>(xs: seq<A>, f: A -> Option<B>)
    ensures |FilterMap(xs, f)| <= |xs|
    decreases |xs|
  {
    if xs != [] {
      FilterMapLength(xs[1..], f);
    }
  }

  /** A value is in the result exactly when some element produced it. */
  lemma {:induction false} FilterMapMembership<A, B>(xs: seq<A>, f: A -> Option<B>, y: B)
    ensures y in FilterMap(xs, f) <==> exists x :: x in xs && f(x) == Some(y)
    decreases |xs|
  {
    if xs != [] {
      var tail := xs[1..];
      FilterMapMembership(tail, f, y);
      assert xs == [xs[0]] + tail;
      if y in FilterMap(xs, f) && y !in FilterMap(tail, f) {
        assert f(xs[0]) == Some(y) && xs[0] in xs;
      }
      if exists x :: x in xs && f(x) == Some(y) {
        var x :| x in xs && f(x) == Some(y);
        if x != xs[0] {
          assert x in tail;
        }
      }
    }
  }

  /** An update is in the list exactly when a pulled record produced it; every qualifying record
      produces its update, carrying the record's id. */
  lemma UpdatesMembership(records: seq<Record>, api: StatsApi)
    ensures |UpdatesOf(records, api)| <= |records|
    ensures forall u :: u in UpdatesOf(records, api) <==>
      exists r :: r in records && Process(r, api) == Some(u)
    ensures forall r :: r in records && Qualifies(r, api) ==>
      Process(r, api).value in UpdatesOf(records, api) && Process(r, api).value.id == r.id
  {
    var f := r => Process(r, api);
    FilterMapLength(records, f);
    forall u
      ensures u in UpdatesOf(records, api) <==> exists r :: r in records && Process(r, api) == Some(u)
    {
      FilterMapMembership(records, f, u);
    }
    forall r | r in records && Qualifies(r, api)
      ensures Process(r, api).value in UpdatesOf(records, api)
    {
      FilterMapMembership(records, f, Process(r, api).value);
    }
  }

  /** One more record in front adds its entry, if it has one, in front. */
  lemma UpdatesCons(r: Record, rest: seq<Record>, api: StatsApi)
    ensures UpdatesOf([r] + rest, api)
         == (if Process(r, api).Some? then [Process(r, api).value] else []) + UpdatesOf(rest, api)
  {
    assert ([r] + rest)[1..] == rest;
    assert ([r] + rest)[0] == r;
  }

  /** Every record pulled goes through the loop; the result is `UpdatesOf`. */
  method BuildUpdates(records: seq<Record>, api: StatsApi) returns (updates: seq<UpdateEntry>)
    ensures updates == UpdatesOf(records, api)
  {
    updates := [];
    for i := 0 to |records|
      invariant updates == UpdatesOf(records[..i], api)
    {
      var record := records[i];
      FilterMapAppend(records[..i], [record], r => Process(r, api));
      assert records[..i + 1] == records[..i] + [record];
      assert [record][1..] == [];
      var url := AssetLink(record);
      if url.None? || url.value.text == "" {
        continue;
      }
      var videoId := ExtractVideoId(url);
      if videoId.None? || videoId.value == "" {
        continue;
      }
      var stats := GetYouTubeStats(api(videoId.value));
      if stats.None? {
        continue;
      }
      updates := updates + [EntryFor(record, stats.value)];
    }
    assert records[..|records|] == records;
  }

  /** The whole run: every page is pulled before any record is processed, and the updates are
      written only when there are some. */
  method RunSync(pages: seq<Page<Record>>, api: StatsApi)
    returns (pulled: seq<Record>, requests: seq<Option<string>>, updates: seq<UpdateEntry>,
             writes: seq<WriteEvent<UpdateEntry>>)
    requires Ends(pages)
    ensures pulled == Flatten(pages[..PagesRead(pages)])
    ensures |requests| == PagesRead(pages) && requests[0] == None
    ensures forall k :: 1 <= k < |requests| ==> requests[k] == pages[k - 1].offset
    ensures updates == UpdatesOf(pulled, api)
    ensures writes == WriteTrace(updates)
  {
    pulled, requests := GetAirtableRecords(pages);
    updates := BuildUpdates(pulled, api);
    if updates != [] {
      writes := BatchUpdateAirtable(updates);
    } else {
      writes := [];
    }
  }

  /** Three records, the first without a link, the second whose lookup fails, the third whose
      lookup succeeds: exactly one update, for the third, and exactly one write request. */
  lemma OneOfThree(r1: Record, r2: Record, r3: Record, api: StatsApi)
    requires AssetLink(r1).None?
    requires ExtractVideoId(AssetLink(r2)).Some? && ExtractVideoId(AssetLink(r2)).value != ""
    requires GetYouTubeStats(api(ExtractVideoId(AssetLink(r2)).value)).None?
    requires Qualifies(r3, api)
    ensures var u := UpdatesOf([r1, r2, r3], api);
      |u| == 1 && u[0].id == r3.id &&
      WriteTrace(u) == [Patch(u), Sleep]
  {
    assert Process(r1, api).None? by {
      assert !Qualifies(r1, api);
    }
    assert Process(r2, api).None? by {
      assert !Qualifies(r2, api);
    }
    var e := Process(r3, api).value;
    assert UpdatesOf([r3], api) == [e] by {
      UpdatesCons(r3, [], api);
      assert [r3] + [] == [r3];
    }
    assert UpdatesOf([r2, r3], api) == [e] by {
      UpdatesCons(r2, [r3], api);
      assert [r2] + [r3] == [r2, r3];
    }
    assert UpdatesOf([r1, r2, r3], api) == [e] by {
      UpdatesCons(r1, [r2, r3], api);
      assert [r1] + [r2, r3] == [r1, r2, r3];
    }
    SingleBatch([e]);
  }
}
