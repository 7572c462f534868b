/** The cursor loop of `get_airtable_records`. The server is replaced by the finite sequence of
    pages it answers, the k-th page being the answer to the k-th request. Records are generic:
    the loop never looks inside them. */
module AirtableFetch {
  import opened Wrappers

  /** One page of the listing: its `records` array and its `offset` cursor, either may be absent. */
  datatype Page<T> = Page(records: Option<seq<T>>, offset: Option<string>)

  /** The page carries a truthy cursor, so another request follows. */
  predicate HasMore<T>(p: Page<T>) {
    p.offset.Some? && p.offset.value != ""
  }

  /** `data.get("records", [])`. */
  function BatchOf<T>(p: Page<T>): seq<T> {
    if p.records.Some? then p.records.value else []
  }

  /** Some page of the sequence ends the listing. */
  predicate Ends<T>(pages: seq<Page<T>>) {
    exists i :: 0 <= i < |pages| && !HasMore(pages[i])
  }

  /** How many pages the loop requests: up to and including the first page without a cursor. */
  function PagesRead<T>(pages: seq<Page<T>>): (n: nat)
    requires Ends(pages)
    ensures 1 <= n <= |pages| && !HasMore(pages[n - 1])
    ensures forall k :: 0 <= k < n - 1 ==> HasMore(pages[k])
  {
    if !HasMore(pages[0]) then 1
    else
      var i :| 0 <= i < |pages| && !HasMore(pages[i]);
      assert pages[1..][i - 1] == pages[i];
      var m := PagesRead(pages[1..]);
      assert forall k :: 1 <= k < m + 1 ==> pages[k] == pages[1..][k - 1];
      1 + m
  }

  /** The records of the given pages, concatenated in order. */
  function Flatten<T>(pages: seq<Page<T>>): seq<T> {
    if pages == [] then [] else BatchOf(pages[0]) + Flatten(pages[1..])
  }

  /** Concatenating page lists concatenates their records. */
  lemma {:induction false} FlattenAppend<T>(a: seq<Page<T>>, b: seq<Page<T>>)
    ensures Flatten(a + b) == Flatten(a) + Flatten(b)
    decreases |a|
  {
    if a != [] {
      FlattenAppend(a[1..], b);
      assert (a + b)[0] == a[0];
      assert (a + b)[1..] == a[1..] + b;
    } else {
      assert a + b == b;
    }
  }

  /** One page more adds that page's records at the end. */
  lemma FlattenNext<T>(pages: seq<Page<T>>, i: nat)
    requires i < |pages|
    ensures Flatten(pages[..i + 1]) == Flatten(pages[..i]) + BatchOf(pages[i])
  {
    FlattenAppend(pages[..i], [pages[i]]);
    assert pages[..i + 1] == pages[..i] + [pages[i]];
    assert [pages[i]][1..] == [];
  }

  /** The cursor the k-th request is meant to carry: none on the first, then the cursor of the
      page before. */
  function Cursor<T>(pages: seq<Page<T>>, k: nat): Option<string>
    requires k <= |pages|
  {
    if k == 0 then None else pages[k - 1].offset
  }

  /** Every page's records are pulled in order, and the requests carry first no cursor, then the
      cursor of the page before; the loop stops at the first page without a cursor. */
  method GetAirtableRecords<T>(pages: seq<Page<T>>) returns (all: seq<T>, requests: seq<Option<string>>)
    requires Ends(pages)
    ensures all == Flatten(pages[..PagesRead(pages)])
    ensures |requests| == PagesRead(pages) && requests[0] == None
    ensures forall k :: 1 <= k < |requests| ==> requests[k] == pages[k - 1].offset
  {
    ghost var n := PagesRead(pages);
    all, requests := [], [];
    var offset: Option<string> := None;
    var i := 0;
    while true
      invariant 0 <= i < n
      invariant all == Flatten(pages[..i])
      invariant |requests| == i && offset == Cursor(pages, i)
      invariant forall k :: 0 <= k < i ==> requests[k] == Cursor(pages, k)
      decreases n - i
    {
      var cursor := if offset.Some? && offset.value != "" then offset else None;
      assert cursor == Cursor(pages, i) by {
        if i > 0 { assert HasMore(pages[i - 1]); }
      }
      requests := requests + [cursor];
      var page := pages[i];
      FlattenNext(pages, i);
      all := all + BatchOf(page);
      offset := page.offset;
      if !(offset.Some? && offset.value != "") {
        break;
      }
      i := i + 1;
    }
  }

  /** Pages after the first one without a cursor are never read. */
  lemma IgnoresLaterPages<T>(pages: seq<Page<T>>, extra: seq<Page<T>>)
    requires Ends(pages)
    ensures Ends(pages + extra) && PagesRead(pages + extra) == PagesRead(pages)
    ensures (pages + extra)[..PagesRead(pages)] == pages[..PagesRead(pages)]
  {
    var n := PagesRead(pages);
    assert (pages + extra)[n - 1] == pages[n - 1];
    PagesReadUnique(pages + extra, n);
  }

  /** The stopping page is determined by the two facts `PagesRead` promises. */
  lemma PagesReadUnique<T>(pages: seq<Page<T>>, n: nat)
    requires 1 <= n <= |pages| && !HasMore(pages[n - 1])
    requires forall k :: 0 <= k < n - 1 ==> HasMore(pages[k])
    ensures Ends(pages) && PagesRead(pages) == n
  {
    assert !HasMore(pages[n - 1]);
  }

  /** Two pages, the first with a cursor and the second without, give the first page's records
      followed by the second's (100 + 37 records give 137 in order). */
  lemma TwoPages<T>(a: seq<T>, cursor: string, b: seq<T>)
    requires cursor != ""
    ensures var pages := [Page(Some(a), Some(cursor)), Page(Some(b), None)];
      Ends(pages) && PagesRead(pages) == 2 && Flatten(pages[..2]) == a + b
  {
    var pages := [Page(Some(a), Some(cursor)), Page(Some(b), None)];
    PagesReadUnique(pages, 2);
    assert pages[..2] == pages;
    assert pages[1..][1..] == [];
    assert Flatten(pages[1..]) == b;
  }
}
