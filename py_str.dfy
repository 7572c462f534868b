/** The few Python `str` operations the scraper relies on, on `seq<char>`:
    `t in s`, `s.startswith(p)`, `s.split(sep)` and `s.strip(c)`. */
module PyStr {

  /** `t in s`: `t` occurs in `s` as a contiguous substring (scanned from the left). */
  predicate Contains(s: string, t: string)
    decreases |s|
  {
    |t| <= |s| && (s[..|t|] == t || Contains(s[1..], t))
  }

  /** `s.startswith(p)`. */
  predicate StartsWith(s: string, p: string) {
    |p| <= |s| && s[..|p|] == p
  }

  /** `t` sits in `s` starting at position `i`. */
  predicate OccursAt(s: string, t: string, i: int) {
    0 <= i <= |s| - |t| && s[i..i + |t|] == t
  }

  /** The left-scanning definition agrees with "there is a position where `t` sits in `s`". */
  lemma {:induction false} ContainsAt(s: string, t: string)
    ensures Contains(s, t) <==> exists i :: OccursAt(s, t, i)
    decreases |s|
  {
    if |t| <= |s| && s[..|t|] == t {
      assert OccursAt(s, t, 0);
    } else if |t| <= |s| && |s| > 0 {
      ContainsAt(s[1..], t);
      if Contains(s[1..], t) {
        var i :| OccursAt(s[1..], t, i);
        assert s[i + 1..i + 1 + |t|] == s[1..][i..i + |t|];
        assert OccursAt(s, t, i + 1);
      }
      if exists i :: OccursAt(s, t, i) {
        var i :| OccursAt(s, t, i);
        assert i != 0;
        assert s[1..][i - 1..i - 1 + |t|] == s[i..i + |t|];
        assert OccursAt(s[1..], t, i - 1);
      }
    }
  }

  /** For a one-character separator, `[c] in s` is plain membership of `c`. */
  lemma {:induction false} ContainsChar(s: string, c: char)
    ensures Contains(s, [c]) <==> c in s
    decreases |s|
  {
    if |s| > 0 {
      ContainsChar(s[1..], c);
      assert s == [s[0]] + s[1..];
    }
  }

  /** `s.split(sep)` for a non-empty separator: the pieces between the matches found
      scanning left to right, matches never overlapping. There is always a first piece,
      and it is a prefix of `s`. */
  function Split(s: string, sep: string): (r: seq<string>)
    requires |sep| > 0
    ensures |r| >= 1 && StartsWith(s, r[0])
    decreases |s|
  {
    if |s| < |sep| then [s]
    else if s[..|sep|] == sep then [""] + Split(s[|sep|..], sep)
    else
      var rest := Split(s[1..], sep);
      [[s[0]] + rest[0]] + rest[1..]
  }

  /** `sep.join(pieces)`. */
  function Join(pieces: seq<string>, sep: string): string
    requires |pieces| >= 1
  {
    if |pieces| == 1 then pieces[0] else pieces[0] + sep + Join(pieces[1..], sep)
  }

  /** Splitting loses nothing: joining the pieces back gives the original text. */
  lemma {:induction false} SplitJoin(s: string, sep: string)
    requires |sep| > 0
    ensures Join(Split(s, sep), sep) == s
    decreases |s|
  {
    if |s| < |sep| {
      assert Split(s, sep) == [s];
    } else if s[..|sep|] == sep {
      var t := s[|sep|..];
      var pt := Split(t, sep);
      SplitJoin(t, sep);
      assert Split(s, sep) == [""] + pt;
      JoinCons("", pt, sep);
      assert Join([""] + pt, sep) == sep + t;
      assert s == s[..|sep|] + t;
    } else {
      var rest := Split(s[1..], sep);
      SplitJoin(s[1..], sep);
      assert Split(s, sep) == [[s[0]] + rest[0]] + rest[1..];
      JoinHead(s[0], rest, sep);
      assert Join([[s[0]] + rest[0]] + rest[1..], sep) == [s[0]] + s[1..];
      assert s == [s[0]] + s[1..];
    }
  }

  /** Joining a piece in front of at least one more adds the piece and a separator. */
  lemma JoinCons(x: string, pieces: seq<string>, sep: string)
    requires |pieces| >= 1
    ensures Join([x] + pieces, sep) == x + sep + Join(pieces, sep)
  {
    assert ([x] + pieces)[1..] == pieces;
  }

  /** Growing the first piece by one character in front grows the joined text the same way. */
  lemma JoinHead(c: char, pieces: seq<string>, sep: string)
    requires |pieces| >= 1
    ensures Join([[c] + pieces[0]] + pieces[1..], sep) == [c] + Join(pieces, sep)
  {
    if |pieces| > 1 {
      JoinCons([c] + pieces[0], pieces[1..], sep);
    } else {
      assert [[c] + pieces[0]] + pieces[1..] == [[c] + pieces[0]];
    }
  }

  /** No piece of `s.split(sep)` contains the separator. */
  lemma {:induction false} SplitPiecesFree(s: string, sep: string)
    requires |sep| > 0
    ensures forall k :: 0 <= k < |Split(s, sep)| ==> !Contains(Split(s, sep)[k], sep)
    decreases |s|
  {
    var r := Split(s, sep);
    if |s| < |sep| {
      assert !Contains(s, sep);
    } else if s[..|sep|] == sep {
      SplitPiecesFree(s[|sep|..], sep);
      assert r[1..] == Split(s[|sep|..], sep);
      assert !Contains("", sep);
      forall k | 0 <= k < |r| ensures !Contains(r[k], sep) {
        if k > 0 { assert r[k] == Split(s[|sep|..], sep)[k - 1]; }
      }
    } else {
      var rest := Split(s[1..], sep);
      SplitPiecesFree(s[1..], sep);
      var p := [s[0]] + rest[0];
      assert r[0] == p;
      // p is a prefix of s, and s does not start with sep
      assert StartsWith(s, p);
      if |sep| <= |p| {
        assert p[..|sep|] == s[..|sep|];
      }
      assert p[1..] == rest[0];
      assert !Contains(p, sep);
      forall k | 0 <= k < |r| ensures !Contains(r[k], sep) {
        if k > 0 { assert r[k] == rest[k]; }
      }
    }
  }

  /** Split scans from the left: no match of the separator starts inside the first piece. */
  lemma {:induction false} SplitLeftmost(s: string, sep: string)
    requires |sep| > 0
    ensures forall i :: 0 <= i < |Split(s, sep)[0]| ==> !OccursAt(s, sep, i)
    decreases |s|
  {
    if |s| >= |sep| && s[..|sep|] != sep {
      var rest := Split(s[1..], sep);
      SplitLeftmost(s[1..], sep);
      forall i | 0 <= i < |Split(s, sep)[0]| ensures !OccursAt(s, sep, i) {
        if i > 0 {
          assert i - 1 < |rest[0]|;
          OccursAtShift(s, sep, i);
        }
      }
    }
  }

  /** Dropping the first character moves every occurrence one place left. */
  lemma OccursAtShift(s: string, t: string, i: int)
    requires 1 <= i <= |s|
    ensures OccursAt(s, t, i) <==> OccursAt(s[1..], t, i - 1)
  {
    if i + |t| <= |s| {
      var a, b := s[i..i + |t|], s[1..][i - 1..i - 1 + |t|];
      assert |a| == |b|;
      forall k | 0 <= k < |a| ensures a[k] == b[k] {
        assert a[k] == s[i + k] && b[k] == s[1..][i - 1 + k];
      }
      assert a == b;
    }
  }

  /** The first piece of `s.split(c)` runs up to the first `c`, or to the end of `s`. */
  lemma {:induction false} FirstPieceMaximal(s: string, c: char)
    ensures var r := Split(s, [c])[0]; |r| == |s| || s[|r|] == c
    decreases |s|
  {
    if |s| >= 1 && s[..1] != [c] {
      FirstPieceMaximal(s[1..], c);
    }
  }

  /** A text free of the separator is a single piece. */
  lemma {:induction false} SplitNoMatch(s: string, sep: string)
    requires |sep| > 0 && !Contains(s, sep)
    ensures Split(s, sep) == [s]
    decreases |s|
  {
    if |s| >= |sep| {
      SplitNoMatch(s[1..], sep);
      assert s == [s[0]] + s[1..];
    }
  }

  /** The first piece of `(a + b).split(c)` is `a` when `a` holds no `c` and `b` is empty or
      starts with `c`. */
  lemma {:induction false} SplitFirstPiece(a: string, b: string, c: char)
    requires c !in a
    requires b == [] || b[0] == c
    ensures Split(a + b, [c])[0] == a
    decreases |a|
  {
    if a != [] {
      SplitFirstPiece(a[1..], b, c);
      assert (a + b)[1..] == a[1..] + b;
      assert a == [a[0]] + a[1..];
    } else if b != [] {
      assert (a + b)[..1] == [c];
    }
  }

  /** `s.lstrip(c)`: the longest suffix of `s` not starting with `c`, everything cut being `c`. */
  function LStrip(s: string, c: char): (r: string)
    ensures |r| <= |s| && r == s[|s| - |r|..]
    ensures forall k :: 0 <= k < |s| - |r| ==> s[k] == c
    ensures r == [] || r[0] != c
    decreases |s|
  {
    if |s| > 0 && s[0] == c then LStrip(s[1..], c) else s
  }

  /** `s.rstrip(c)`: the longest prefix of `s` not ending with `c`, everything cut being `c`. */
  function RStrip(s: string, c: char): (r: string)
    ensures |r| <= |s| && r == s[..|r|]
    ensures forall k :: |r| <= k < |s| ==> s[k] == c
    ensures r == [] || r[|r| - 1] != c
    decreases |s|
  {
    if |s| > 0 && s[|s| - 1] == c then RStrip(s[..|s| - 1], c) else s
  }

  /** `s.strip(c)`: neither starts nor ends with `c`. */
  function Strip(s: string, c: char): (r: string)
    ensures r == [] || (r[0] != c && r[|r| - 1] != c)
  {
    RStrip(LStrip(s, c), c)
  }

  /** `s` is `r` framed by runs of `c`: `r` starts at position `i` and everything outside it is `c`. */
  predicate FramedBy(s: string, r: string, c: char, i: int) {
    0 <= i <= |s| - |r| && s[i..i + |r|] == r &&
    (forall k :: 0 <= k < i ==> s[k] == c) &&
    (forall k :: i + |r| <= k < |s| ==> s[k] == c)
  }

  /** `s.strip(c)` is the middle of `s` once every leading and trailing `c` is cut: it neither
      starts nor ends with `c`, and `s` is that text framed by runs of `c`. */
  lemma StripFrame(s: string, c: char)
    ensures var r := Strip(s, c);
      (r == [] || (r[0] != c && r[|r| - 1] != c)) &&
      FramedBy(s, r, c, |s| - |LStrip(s, c)|)
  {
    var l := LStrip(s, c);
    var r := RStrip(l, c);
    var i := |s| - |l|;
    RStripFrame(l, c);
    assert l == s[i..];
    assert s[i..i + |r|] == l[..|r|];
    forall k | i + |r| <= k < |s| ensures s[k] == c {
      assert s[k] == l[k - i];
    }
  }

  /** `s.rstrip(c)` is `s` with a trailing run of `c` cut off. */
  lemma RStripFrame(s: string, c: char)
    ensures FramedBy(s, RStrip(s, c), c, 0)
  {
  }
}
