/** The decision part of `get_youtube_stats`: from the answer of the YouTube Data API's
    `videos?part=statistics` endpoint to a triple of counters, or `None`. The request itself is
    not modelled; its answer is the input. */
module YouTubeStats {
  import opened Wrappers

  /** One element of `items`: its `statistics` object, counters already converted by `int()`. */
  datatype Item = Item(statistics: map<string, nat>)

  /** What the endpoint answered: the HTTP status and, when the body has one, the `items` list. */
  datatype StatsResponse = StatsResponse(status: int, items: Option<seq<Item>>)

  /** The three counters written back to the table. */
  datatype Stats = Stats(views: nat, likes: nat, comments: nat)

  /** `stats.get(key, 0)`. */
  function Counter(statistics: map<string, nat>, key: string): nat {
    if key in statistics then statistics[key] else 0
  }

  /** A non-200 status, or `items` missing or empty, is a failure; otherwise the first item's
      counters, each missing one counting as 0. */
  function GetYouTubeStats(resp: StatsResponse): (r: Option<Stats>)
    ensures r.Some? <==> resp.status == 200 && resp.items.Some? && resp.items.value != []
  {
    if resp.status != 200 then None
    else if resp.items.Some? && resp.items.value != [] then
      var st := resp.items.value[0].statistics;
      Some(Stats(Counter(st, "viewCount"), Counter(st, "likeCount"), Counter(st, "commentCount")))
    else None
  }

  /** On success each counter is read from the first item on its own: present, it is that
      item's value; absent, it is 0. */
  lemma StatsCounters(resp: StatsResponse)
    requires resp.status == 200 && resp.items.Some? && resp.items.value != []
    ensures var r := GetYouTubeStats(resp); var st := resp.items.value[0].statistics;
      r.Some? &&
      r.value.views == (if "viewCount" in st then st["viewCount"] else 0) &&
      r.value.likes == (if "likeCount" in st then st["likeCount"] else 0) &&
      r.value.comments == (if "commentCount" in st then st["commentCount"] else 0)
  {
  }

  /** A successful answer whose first item has no counters at all is still a success, with every
      counter 0: an all-zero triple is not a failure. */
  lemma NoCountersIsZeroSuccess(resp: StatsResponse)
    requires resp.status == 200 && resp.items.Some? && resp.items.value != []
    requires resp.items.value[0].statistics == map[]
    ensures GetYouTubeStats(resp) == Some(Stats(0, 0, 0))
  {
  }

  /** Only the first item is read: whatever follows it does not change the result. */
  lemma FirstItemOnly(status: int, first: Item, more: seq<Item>)
    ensures GetYouTubeStats(StatsResponse(status, Some([first] + more)))
         == GetYouTubeStats(StatsResponse(status, Some([first])))
  {
  }
}
