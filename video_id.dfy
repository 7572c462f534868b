/** `extract_video_id`: from a shareable YouTube URL to a video id, or `None`.
    The URL arrives already split the way `urlparse` splits it; splitting itself is not modelled. */
module VideoId {
  import opened Wrappers
  import opened PyStr

  /** One `name=value` pair of a query string, already percent-decoded, in the order written. */
  datatype QueryPair = QueryPair(name: string, value: string)

  /** A URL as `urlparse` splits it: the original text, the network location, the path and
      the query as its decoded pairs. */
  datatype SplitUrl = SplitUrl(text: string, netloc: string, path: string, query: seq<QueryPair>)

  /** Host fragment of the short-link form `https://youtu.be/<id>`. */
  const ShortHost: string := "youtu.be"
  /** Host fragment of the main site. */
  const MainHost: string := "youtube.com"
  /** Path prefix of a live-stream URL. */
  const LivePrefix: string := "/live/"

  /** Position `k` holds the pair `name=value`, the value is non-blank, and no earlier pair called
      `name` has a non-blank value. */
  predicate FirstNonBlankAt(query: seq<QueryPair>, name: string, value: string, k: int) {
    0 <= k < |query| && query[k] == QueryPair(name, value) && value != "" &&
    forall j :: 0 <= j < k ==> !(query[j].name == name && query[j].value != "")
  }

  /** `parse_qs(query).get(name, [None])[0]`. `parse_qs` drops pairs whose value is blank and
      keeps the rest in order, so this is the first pair called `name` with a non-empty value. */
  function FirstValue(query: seq<QueryPair>, name: string): (r: Option<string>)
    ensures r.None? <==> forall k :: 0 <= k < |query| ==> !(query[k].name == name && query[k].value != "")
    ensures r.Some? ==> exists k :: FirstNonBlankAt(query, name, r.value, k)
  {
    if query == [] then None
    else if query[0].name == name && query[0].value != "" then
      assert FirstNonBlankAt(query, name, query[0].value, 0);
      Some(query[0].value)
    else
      assert forall k :: 1 <= k < |query| ==> query[k] == query[1..][k - 1];
      var r := FirstValue(query[1..], name);
      assert r.Some? ==> exists k :: FirstNonBlankAt(query, name, r.value, k) by {
        if r.Some? {
          var k :| FirstNonBlankAt(query[1..], name, r.value, k);
          assert FirstNonBlankAt(query, name, r.value, k + 1);
        }
      }
      r
  }

  /** Pairs before the first non-blank `name` pair are passed over: only the first such pair counts. */
  lemma {:induction false} FirstValueSkips(pre: seq<QueryPair>, rest: seq<QueryPair>, name: string)
    requires forall k :: 0 <= k < |pre| ==> !(pre[k].name == name && pre[k].value != "")
    ensures FirstValue(pre + rest, name) == FirstValue(rest, name)
    decreases |pre|
  {
    if pre != [] {
      FirstValueSkips(pre[1..], rest, name);
      assert (pre + rest)[0] == pre[0];
      assert (pre + rest)[1..] == pre[1..] + rest;
    } else {
      assert pre + rest == rest;
    }
  }

  /** `path.split('/live/')[-1].split('/')[0]`: never contains `/`. */
  function LiveId(path: string): (r: string)
    ensures '/' !in r
  {
    var pieces := Split(path, LivePrefix);
    var last := pieces[|pieces| - 1];
    SplitPiecesFree(last, "/");
    ContainsChar(Split(last, "/")[0], '/');
    Split(last, "/")[0]
  }

  /** The id a URL names, if any. An absent or empty URL, or a host that mentions neither
      YouTube domain, gives `None`; the short-link host is tried first. */
  function ExtractVideoId(url: Option<SplitUrl>): (r: Option<string>)
    ensures r.Some? ==> url.Some? && url.value.text != ""
    ensures r.Some? ==> Contains(url.value.netloc, ShortHost) || Contains(url.value.netloc, MainHost)
  {
    if url.None? || url.value.text == "" then None
    else
      var u := url.value;
      if Contains(u.netloc, ShortHost) then Some(Strip(u.path, '/'))
      else if Contains(u.netloc, MainHost) && StartsWith(u.path, LivePrefix) then Some(LiveId(u.path))
      else if Contains(u.netloc, MainHost) then FirstValue(u.query, "v")
      else None
  }

  /** A short link gives its path with every leading and trailing `/` cut, whatever else the host
      says: the id neither starts nor ends with `/`, the path is that id framed by runs of `/`,
      and it may be empty (for `https://youtu.be/`). */
  lemma ExtractShortLink(u: SplitUrl)
    requires u.text != "" && Contains(u.netloc, ShortHost)
    ensures var r := ExtractVideoId(Some(u));
      r.Some? && (r.value == [] || (r.value[0] != '/' && r.value[|r.value| - 1] != '/')) &&
      exists i :: FramedBy(u.path, r.value, '/', i)
  {
    assert ExtractVideoId(Some(u)) == Some(Strip(u.path, '/'));
    StripFrame(u.path, '/');
  }

  /** `https://youtu.be/<id>` with a slash-free id gives exactly `<id>`. */
  lemma ExtractShortLinkPlain(u: SplitUrl, id: string)
    requires u.text != "" && Contains(u.netloc, ShortHost)
    requires u.path == "/" + id && '/' !in id
    ensures ExtractVideoId(Some(u)) == Some(id)
  {
    StripOneSlash(id);
    assert ExtractVideoId(Some(u)) == Some(Strip(u.path, '/'));
  }

  /** Stripping `/` from a single leading slash before a slash-free id leaves the id. */
  lemma StripOneSlash(id: string)
    requires '/' !in id
    ensures Strip("/" + id, '/') == id
  {
    var p := "/" + id;
    assert p[1..] == id;
    assert LStrip(p, '/') == LStrip(id, '/');
    if id != [] {
      assert id[0] in id;
      assert id[|id| - 1] in id;
    }
  }

  /** A live URL on the main host gives the text after the last `/live/` that the
      left-to-right split finds, cut at the next `/`: a slash-free prefix of that text that
      runs up to its first `/` or to its end. */
  lemma ExtractLive(u: SplitUrl)
    requires u.text != "" && !Contains(u.netloc, ShortHost) && Contains(u.netloc, MainHost)
    requires StartsWith(u.path, LivePrefix)
    ensures var r := ExtractVideoId(Some(u)); var pieces := Split(u.path, LivePrefix);
      var last := pieces[|pieces| - 1];
      r.Some? && '/' !in r.value && StartsWith(last, r.value) &&
      (|r.value| == |last| || last[|r.value|] == '/')
  {
    var pieces := Split(u.path, LivePrefix);
    var last := pieces[|pieces| - 1];
    SplitPiecesFree(last, "/");
    ContainsChar(Split(last, "/")[0], '/');
    FirstPieceMaximal(last, '/');
  }

  /** `https://www.youtube.com/live/<id>/extra`: the id is the segment right after `/live/`,
      provided the rest of the path does not itself contain `/live/`. */
  lemma ExtractLivePlain(u: SplitUrl, id: string, rest: string)
    requires u.text != "" && !Contains(u.netloc, ShortHost) && Contains(u.netloc, MainHost)
    requires u.path == LivePrefix + id + rest && '/' !in id
    requires (rest == [] || rest[0] == '/') && !Contains(rest, LivePrefix)
    ensures ExtractVideoId(Some(u)) == Some(id)
  {
    var tail := id + rest;
    assert u.path[..|LivePrefix|] == LivePrefix;
    assert u.path[|LivePrefix|..] == tail;
    assert Split(u.path, LivePrefix) == [""] + Split(tail, LivePrefix);
    NoLiveInTail(id, rest);
    SplitNoMatch(tail, LivePrefix);
    SplitFirstPiece(id, rest, '/');
  }

  /** `/live/` cannot start inside a slash-free id, so it occurs in `id + rest` only if it
      occurs in `rest`. */
  lemma NoLiveInTail(id: string, rest: string)
    requires '/' !in id && !Contains(rest, LivePrefix)
    ensures !Contains(id + rest, LivePrefix)
  {
    var t := id + rest;
    ContainsAt(t, LivePrefix);
    ContainsAt(rest, LivePrefix);
    forall i | 0 <= i <= |t| - |LivePrefix|
      ensures !OccursAt(t, LivePrefix, i)
    {
      if i < |id| {
        assert t[i..i + |LivePrefix|][0] == id[i];
        assert id[i] != '/' && LivePrefix[0] == '/';
        assert t[i..i + |LivePrefix|] != LivePrefix;
      } else {
        assert t[i..i + |LivePrefix|] == rest[i - |id|..i - |id| + |LivePrefix|];
        assert !OccursAt(rest, LivePrefix, i - |id|);
      }
    }
  }

  /** Any other main-host URL gives its first non-blank `v` parameter, or `None` without one. */
  lemma ExtractWatch(u: SplitUrl)
    requires u.text != "" && !Contains(u.netloc, ShortHost) && Contains(u.netloc, MainHost)
    requires !StartsWith(u.path, LivePrefix)
    ensures var r := ExtractVideoId(Some(u));
      (r.None? <==> forall k :: 0 <= k < |u.query| ==> !(u.query[k].name == "v" && u.query[k].value != "")) &&
      (r.Some? ==> exists k :: FirstNonBlankAt(u.query, "v", r.value, k))
  {
  }

  /** `https://www.youtube.com/watch?v=<id>&...` gives exactly `<id>`. */
  lemma ExtractWatchPlain(u: SplitUrl, id: string, more: seq<QueryPair>)
    requires u.text != "" && !Contains(u.netloc, ShortHost) && Contains(u.netloc, MainHost)
    requires !StartsWith(u.path, LivePrefix)
    requires id != "" && u.query == [QueryPair("v", id)] + more
    ensures ExtractVideoId(Some(u)) == Some(id)
  {
  }
}
