/** The chunking loop of `batch_update_airtable`: the updates go out in consecutive slices of at
    most ten, one PATCH per slice, each followed by a pause. The requests and the pause are
    recorded as a trace of events; entries are generic, the loop never looks inside them. */
module AirtableWrite {

  /** The table store accepts at most ten records per write request. */
  const BatchSize: nat := 10

  /** What the loop does, in order: send one write request with a slice, or pause. */
  datatype WriteEvent<T> = Patch(batch: seq<T>) | Sleep

  /** Reference definition of the slicing: the first ten, then the slices of the rest. */
  function Chunks<T>(s: seq<T>): seq<seq<T>>
    decreases |s|
  {
    if s == [] then []
    else if |s| <= BatchSize then [s]
    else [s[..BatchSize]] + Chunks(s[BatchSize..])
  }

  /** The slices laid end to end. */
  function Concat<T>(c: seq<seq<T>>): seq<T> {
    if c == [] then [] else c[0] + Concat(c[1..])
  }

  /** One write request and one pause per slice, in slice order. */
  function Events<T>(c: seq<seq<T>>): seq<WriteEvent<T>> {
    if c == [] then [] else [Patch(c[0]), Sleep] + Events(c[1..])
  }

  /** Everything `batch_update_airtable(s)` does. */
  function WriteTrace<T>(s: seq<T>): seq<WriteEvent<T>> {
    Events(Chunks(s))
  }

  /** The smaller of two integers: where Python's slice `s[i:i+10]` stops. */
  function Min(a: int, b: int): int {
    if a <= b then a else b
  }

  /** The slices partition the input: laid end to end they give it back, in order. */
  lemma {:induction false} ChunksConcat<T>(s: seq<T>)
    ensures Concat(Chunks(s)) == s
    decreases |s|
  {
    if |s| > BatchSize {
      ChunksConcat(s[BatchSize..]);
      assert Chunks(s)[1..] == Chunks(s[BatchSize..]);
      assert s == s[..BatchSize] + s[BatchSize..];
    }
  }

  /** Every slice holds one to ten entries, and every slice but the last holds exactly ten. */
  lemma {:induction false} ChunksSizes<T>(s: seq<T>)
    ensures forall k :: 0 <= k < |Chunks(s)| ==>
      1 <= |Chunks(s)[k]| <= BatchSize && (k < |Chunks(s)| - 1 ==> |Chunks(s)[k]| == BatchSize)
    decreases |s|
  {
    if |s| > BatchSize {
      ChunksSizes(s[BatchSize..]);
      var c := Chunks(s);
      forall k | 1 <= k < |c| ensures c[k] == Chunks(s[BatchSize..])[k - 1] { }
    }
  }

  /** There are ceil(n / 10) slices. */
  lemma {:induction false} ChunksCount<T>(s: seq<T>)
    ensures |Chunks(s)| == (|s| + BatchSize - 1) / BatchSize
    decreases |s|
  {
    if |s| > BatchSize {
      ChunksCount(s[BatchSize..]);
    }
  }

  /** The k-th slice is `s[10k : 10k + 10]`, Python's clamped slice. */
  lemma {:induction false} ChunkAt<T>(s: seq<T>, k: nat)
    requires k < |Chunks(s)|
    ensures BatchSize * k < |s|
    ensures Chunks(s)[k] == s[BatchSize * k..Min(BatchSize * k + BatchSize, |s|)]
    decreases |s|
  {
    if k > 0 {
      var t := s[BatchSize..];
      assert Chunks(s)[k] == Chunks(t)[k - 1];
      ChunkAt(t, k - 1);
      assert BatchSize * k == BatchSize * (k - 1) + BatchSize;
      assert t[BatchSize * (k - 1)..Min(BatchSize * (k - 1) + BatchSize, |t|)]
          == s[BatchSize * k..Min(BatchSize * k + BatchSize, |s|)];
    }
  }

  /** Appending a slice appends its request and its pause. */
  lemma {:induction false} EventsSnoc<T>(c: seq<seq<T>>, x: seq<T>)
    ensures Events(c + [x]) == Events(c) + [Patch(x), Sleep]
    decreases |c|
  {
    if c != [] {
      EventsSnoc(c[1..], x);
      assert (c + [x])[1..] == c[1..] + [x];
    } else {
      assert [x][1..] == [];
    }
  }

  /** The trace alternates: request k carries slice k and is followed by a pause. */
  lemma {:induction false} EventsShape<T>(c: seq<seq<T>>)
    ensures |Events(c)| == 2 * |c|
    ensures forall k :: 0 <= k < |c| ==> Events(c)[2 * k] == Patch(c[k]) && Events(c)[2 * k + 1] == Sleep
    decreases |c|
  {
    if c != [] {
      EventsShape(c[1..]);
      forall k | 1 <= k < |c|
        ensures Events(c)[2 * k] == Patch(c[k]) && Events(c)[2 * k + 1] == Sleep
      {
        assert Events(c)[2 * k] == Events(c[1..])[2 * (k - 1)];
        assert Events(c)[2 * k + 1] == Events(c[1..])[2 * (k - 1) + 1];
        assert c[k] == c[1..][k - 1];
      }
    }
  }

  /** A list of one to ten entries goes out in a single request, followed by one pause. */
  lemma SingleBatch<T>(s: seq<T>)
    requires 1 <= |s| <= BatchSize
    ensures WriteTrace(s) == [Patch(s), Sleep]
  {
    var c := Chunks(s);
    assert c == [s];
    assert c[1..] == [];
    assert Events(c) == [Patch(s), Sleep] + Events(c[1..]);
  }

  /** 25 entries go out as slices of 10, 10 and 5, in order, each followed by a pause. */
  lemma TwentyFive<T>(s: seq<T>)
    requires |s| == 25
    ensures WriteTrace(s) == [Patch(s[..10]), Sleep, Patch(s[10..20]), Sleep, Patch(s[20..]), Sleep]
  {
    var t := s[BatchSize..];
    var u := t[BatchSize..];
    assert u == s[20..] && t[..BatchSize] == s[10..20];
    assert Chunks(u) == [u];
    assert Chunks(t) == [s[10..20], u];
    var c := Chunks(s);
    assert c == [s[..10], s[10..20], s[20..]];
    assert c[1..][1..] == [s[20..]];
    assert Events(c[1..][1..]) == [Patch(s[20..]), Sleep];
    assert Events(c[1..]) == [Patch(s[10..20]), Sleep, Patch(s[20..]), Sleep];
  }

  /** Sends `s[i : i + 10]` for i = 0, 10, 20, ... and pauses after each request; nothing at all
      for an empty list. */
  method BatchUpdateAirtable<T>(updates: seq<T>) returns (trace: seq<WriteEvent<T>>)
    ensures trace == WriteTrace(updates)
    ensures trace == [] <==> updates == []
  {
    ghost var c := Chunks(updates);
    ChunksCount(updates);
    trace := [];
    var i := 0;
    ghost var k := 0;
    while i < |updates|
      invariant 0 <= k <= |c| && i == BatchSize * k
      invariant i < |updates| <==> k < |c|
      invariant trace == Events(c[..k])
      decreases |updates| - i
    {
      var batch := updates[i..Min(i + BatchSize, |updates|)];
      ChunkAt(updates, k);
      assert c[..k + 1] == c[..k] + [batch];
      EventsSnoc(c[..k], batch);
      trace := trace + [Patch(batch), Sleep];
      i, k := i + BatchSize, k + 1;
    }
    assert c[..k] == c;
  }
}
