/**
 The wildcard matcher that policy resources are compared with.
 `Wild` is the meaning of a pattern: '*' stands for any string. `ResourceMatch` is the
 library's greedy left-to-right cutting algorithm.
*/
module Wildcard {

  /** The meaning of a pattern: '*' stands for any string, every other character for itself. */
  predicate Wild(p: string, r: string)
    decreases |p| + |r|
  {
    if p == "" then r == ""
    else if p[0] == '*' then Wild(p[1..], r) || (r != "" && Wild(p, r[1..]))
    else r != "" && r[0] == p[0] && Wild(p[1..], r[1..])
  }

  /** The longest star-free prefix of a pattern. */
  function Literal(p: string): (l: string)
    ensures l <= p
    ensures '*' in p <==> |l| < |p|
  {
    if p == "" || p[0] == '*' then "" else [p[0]] + Literal(p[1..])
  }

  lemma {:induction false} LiteralIsLongest(p: string)
    ensures var l := Literal(p); '*' !in l && (|l| < |p| ==> p[|l|] == '*')
  {
    if p != "" && p[0] != '*' {
      LiteralIsLongest(p[1..]);
      assert p == [p[0]] + p[1..];
    }
  }

  /** What `ResourceMatch` decides. The literal prefix is compared but not cut off, so the
      starred rest is matched against the whole resource. */
  predicate Matches(p: string, r: string) {
    if '*' in p then Literal(p) <= r && Wild(p[|Literal(p)|..], r) else r == p
  }

  // ----- pieces between the stars -----

  /** Cuts a pattern at its stars. */
  function Split(p: string): (parts: seq<string>)
    ensures |parts| >= 1
  {
    if p == "" then [""]
    else if p[0] == '*' then [""] + Split(p[1..])
    else
      var rest := Split(p[1..]);
      [[p[0]] + rest[0]] + rest[1..]
  }

  /** The pieces after the first star. */
  function Pieces(p: string): (parts: seq<string>)
    requires '*' in p
    ensures |parts| >= 1
  {
    Split(p[|Literal(p)| + 1..])
  }

  lemma {:induction false} SplitStarFree(p: string)
    requires '*' !in p
    ensures Split(p) == [p]
  {
    if p != "" {
      SplitStarFree(p[1..]);
      assert p == [p[0]] + p[1..];
    }
  }

  lemma {:induction false} SplitEndsInStar(p: string)
    requires p != "" && p[|p| - 1] == '*'
    ensures var parts := Split(p); parts[|parts| - 1] == "" && |parts| >= 2
  {
    var rest := Split(p[1..]);
    if |p| == 1 {
      assert Split(p) == [""] + rest && rest == [""];
    } else {
      SplitEndsInStar(p[1..]);
      if p[0] == '*' {
        assert Split(p) == [""] + rest;
      } else {
        assert Split(p) == [[p[0]] + rest[0]] + rest[1..];
      }
    }
  }

  /** `parts` occur in `r` in this order, each after any gap, the last one at the very end. */
  ghost predicate Tail(parts: seq<string>, r: string)
    requires |parts| >= 1
    decreases |parts|
  {
    if |parts| == 1 then EndsWith(r, parts[0])
    else exists k :: OccursAt(r, parts[0], k) && Tail(parts[1..], r[k + |parts[0]|..])
  }

  predicate EndsWith(r: string, s: string) {
    |s| <= |r| && r[|r| - |s|..] == s
  }

  predicate OccursAt(r: string, s: string, k: int) {
    0 <= k && k + |s| <= |r| && r[k..k + |s|] == s
  }

  /** Dropping a shorter prefix never loses a match. */
  lemma {:induction false} TailMonotone(parts: seq<string>, r: string, i: nat)
    requires |parts| >= 1 && i <= |r|
    requires Tail(parts, r[i..])
    ensures Tail(parts, r)
  {
    if |parts| == 1 {
      var s := parts[0];
      assert r[i..][|r[i..]| - |s|..] == r[|r| - |s|..];
    } else {
      var s := parts[0];
      var k :| OccursAt(r[i..], s, k) && Tail(parts[1..], r[i..][k + |s|..]);
      assert r[i..][k..k + |s|] == r[i + k..i + k + |s|];
      assert r[i..][k + |s|..] == r[i + k + |s|..];
      assert OccursAt(r, s, i + k);
    }
  }

  /** Cutting at the leftmost occurrence loses nothing. */
  lemma LeftmostCut(parts: seq<string>, r: string, k: int)
    requires |parts| >= 2
    requires OccursAt(r, parts[0], k)
    requires forall j :: 0 <= j < k ==> !OccursAt(r, parts[0], j)
    ensures Tail(parts, r) <==> Tail(parts[1..], r[k + |parts[0]|..])
  {
    if Tail(parts, r) {
      var s := parts[0];
      var j :| OccursAt(r, s, j) && Tail(parts[1..], r[j + |s|..]);
      assert k <= j;
      assert r[k + |s|..][j - k..] == r[j + |s|..];
      TailMonotone(parts[1..], r[k + |s|..], j - k);
    }
  }

  // ----- Tail is the meaning of the starred rest -----

  /** One leading star before a literal piece. */
  lemma {:induction false} StarThen(q: string, r: string, k: nat)
    requires k <= |r| && Wild(q, r[k..])
    ensures Wild("*" + q, r)
    decreases k
  {
    assert ("*" + q)[1..] == q;
    if k == 0 {
      assert r[0..] == r;
    } else {
      assert r[1..][k - 1..] == r[k..];
      StarThen(q, r[1..], k - 1);
    }
  }

  lemma {:induction false} StarInv(q: string, r: string) returns (k: nat)
    requires Wild("*" + q, r)
    ensures k <= |r| && Wild(q, r[k..])
    decreases |r|
  {
    assert ("*" + q)[1..] == q;
    if Wild(q, r) {
      assert r[0..] == r;
      k := 0;
    } else {
      var j := StarInv(q, r[1..]);
      assert r[1..][j..] == r[j + 1..];
      k := j + 1;
    }
  }

  lemma {:induction false} WildLiteral(l: string, q: string, r: string)
    requires '*' !in l
    ensures Wild(l + q, r) <==> l <= r && Wild(q, r[|l|..])
  {
    if l == "" {
      assert l + q == q && r[0..] == r;
    } else {
      assert (l + q)[1..] == l[1..] + q;
      if r != "" {
        WildLiteral(l[1..], q, r[1..]);
        assert l <= r <==> l[0] == r[0] && l[1..] <= r[1..];
        if l <= r {
          assert r[1..][|l[1..]|..] == r[|l|..];
        }
      }
    }
  }

  lemma {:induction false} SplitAtStar(p: string)
    requires '*' in p
    ensures Split(p) == [Literal(p)] + Pieces(p)
  {
    if p[0] != '*' {
      SplitAtStar(p[1..]);
      var l := Literal(p);
      assert l == [p[0]] + Literal(p[1..]);
      assert p[1..][|Literal(p[1..])| + 1..] == p[|l| + 1..];
    }
  }

  /** One last piece after a star. */
  lemma LastPiece(l: string, r: string)
    requires '*' !in l
    ensures EndsWith(r, l) <==> Wild("*" + l, r)
  {
    assert l + "" == l;
    if EndsWith(r, l) {
      var k := |r| - |l|;
      WildLiteral(l, "", r[k..]);
      assert r[k..][|l|..] == "";
      StarThen(l, r, k);
    }
    if Wild("*" + l, r) {
      var k := StarInv(l, r);
      WildLiteral(l, "", r[k..]);
      assert r[k..][|l|..] == "" && |r[k..]| == |l|;
      assert r[k..] == l;
    }
  }

  /** One inner piece between two stars, found at k. */
  lemma InnerPiece(l: string, q: string, r: string, k: int)
    requires '*' !in l
    requires OccursAt(r, l, k) && Wild("*" + q, r[k + |l|..])
    ensures Wild("*" + (l + ("*" + q)), r)
  {
    WildLiteral(l, "*" + q, r[k..]);
    assert r[k..][..|l|] == l && r[k..][|l|..] == r[k + |l|..];
    StarThen(l + ("*" + q), r, k);
  }

  lemma InnerPieceInv(l: string, q: string, r: string) returns (k: int)
    requires '*' !in l
    requires Wild("*" + (l + ("*" + q)), r)
    ensures OccursAt(r, l, k) && Wild("*" + q, r[k + |l|..])
  {
    k := StarInv(l + ("*" + q), r);
    WildLiteral(l, "*" + q, r[k..]);
    assert r[k..][..|l|] == r[k..k + |l|] && r[k..][|l|..] == r[k + |l|..];
  }

  lemma StarredShape(p: string)
    requires '*' in p
    ensures var l := Literal(p); '*' !in l && p == l + ("*" + p[|l| + 1..])
  {
    LiteralIsLongest(p);
  }

  /** "*" followed by p means: the pieces of p occur in order, the last at the end. */
  lemma {:induction false} TailMeaning(p: string, r: string)
    ensures Tail(Split(p), r) <==> Wild("*" + p, r)
    decreases |p|
  {
    if '*' !in p {
      SplitStarFree(p);
      LastPiece(p, r);
    } else {
      SplitAtStar(p);
      var l, rest := Literal(p), Pieces(p);
      var q := p[|l| + 1..];
      StarredShape(p);
      forall k | OccursAt(r, l, k)
        ensures Tail(rest, r[k + |l|..]) <==> Wild("*" + q, r[k + |l|..])
      {
        TailMeaning(q, r[k + |l|..]);
      }
      TailUnfold(l, rest, r);
      TailStep(p, l, q, r);
    }
  }

  lemma TailUnfold(l: string, rest: seq<string>, r: string)
    requires |rest| >= 1
    ensures Tail([l] + rest, r) <==> exists k :: OccursAt(r, l, k) && Tail(rest, r[k + |l|..])
  {
    var parts := [l] + rest;
    assert parts[1..] == rest;
    if Tail(parts, r) {
      var k :| OccursAt(r, parts[0], k) && Tail(parts[1..], r[k + |parts[0]|..]);
      assert OccursAt(r, l, k) && Tail(rest, r[k + |l|..]);
    }
    if k :| OccursAt(r, l, k) && Tail(rest, r[k + |l|..]) {
      assert OccursAt(r, parts[0], k) && Tail(parts[1..], r[k + |parts[0]|..]);
    }
  }

  lemma TailStep(p: string, l: string, q: string, r: string)
    requires '*' !in l && p == l + ("*" + q)
    ensures (exists k :: OccursAt(r, l, k) && Wild("*" + q, r[k + |l|..])) <==> Wild("*" + p, r)
  {
    if k :| OccursAt(r, l, k) && Wild("*" + q, r[k + |l|..]) {
      InnerPiece(l, q, r, k);
    }
    if Wild("*" + p, r) {
      var k := InnerPieceInv(l, q, r);
    }
  }

  /** `Matches`, said over the pieces that the algorithm works on. */
  lemma MatchesOverPieces(p: string, r: string)
    requires '*' in p
    ensures Matches(p, r) <==> Literal(p) <= r && Tail(Pieces(p), r)
  {
    StarredShape(p);
    var q := p[|Literal(p)| + 1..];
    assert p[|Literal(p)|..] == "*" + q;
    TailMeaning(q, r);
  }

  /** What the algorithm may conclude from the pieces of a pattern. */
  lemma PiecesDecide(p: string, r: string)
    requires p != ""
    ensures var parts := Split(p);
            if |parts| == 1 then Matches(p, r) <==> r == p
            else Matches(p, r) <==> parts[0] <= r && Tail(parts[1..], r)
    ensures p[|p| - 1] == '*' ==> Split(p)[|Split(p)| - 1] == ""
  {
    if p[|p| - 1] == '*' {
      SplitEndsInStar(p);
    }
    if '*' in p {
      SplitAtStar(p);
      assert Split(p)[1..] == Pieces(p);
      MatchesOverPieces(p, r);
    } else {
      SplitStarFree(p);
    }
  }

  // ----- the algorithm -----

  /** strings.Index: the leftmost occurrence, or -1. */
  method Index(r: string, s: string) returns (k: int)
    ensures k == -1 ==> forall j :: !OccursAt(r, s, j)
    ensures k != -1 ==> OccursAt(r, s, k) && forall j :: 0 <= j < k ==> !OccursAt(r, s, j)
  {
    k := 0;
    while k + |s| <= |r|
      invariant 0 <= k
      invariant forall j :: 0 <= j < k ==> !OccursAt(r, s, j)
      decreases |r| - k
    {
      if r[k..k + |s|] == s {
        return;
      }
      k := k + 1;
    }
    k := -1;
  }

  /** The library's matcher, loop and all, decides exactly `Matches`. */
  method ResourceMatch(pattern: string, resource: string) returns (matched: bool)
    ensures matched == Matches(pattern, resource)
  {
    if pattern == "" {
      return resource == pattern;
    }
    if pattern == "*" {
      StarMatchesAll(resource);
      return true;
    }
    var parts := Split(pattern);
    PiecesDecide(pattern, resource);
    if |parts| == 1 {
      return resource == pattern;
    }
    var tGlob := pattern[|pattern| - 1] == '*';
    var end := |parts| - 1;
    if !(parts[0] <= resource) {
      return false;
    }
    var cut := resource;
    var i := 1;
    while i < end
      invariant 1 <= i <= end
      invariant Tail(parts[1..], resource) <==> Tail(parts[i..], cut)
    {
      var idx := Index(cut, parts[i]);
      assert parts[i..][0] == parts[i] && parts[i..][1..] == parts[i + 1..];
      if idx == -1 {
        return false;
      }
      LeftmostCut(parts[i..], cut, idx);
      cut := cut[idx + |parts[i]|..];
      i := i + 1;
    }
    return tGlob || EndsWith(cut, parts[end]);
  }

  // ----- what the algorithm promises -----

  /** Greedy cutting never loses a match. */
  lemma MatchesIsComplete(p: string, r: string)
    requires Wild(p, r)
    ensures Matches(p, r)
  {
    if '*' in p {
      StarredShape(p);
      var l := Literal(p);
      var q := p[|l| + 1..];
      WildLiteral(l, "*" + q, r);
      var k := StarInv(q, r[|l|..]);
      assert r[|l|..][k..] == r[|l| + k..];
      StarThen(q, r, |l| + k);
      assert p[|l|..] == "*" + q;
    } else {
      StarFreeIsExact(p, r);
    }
  }

  lemma StarMatchesAll(r: string)
    ensures Wild("*", r)
  {
    assert r[|r|..] == "" && "*" + "" == "*";
    StarThen("", r, |r|);
  }

  // ----- exactly which patterns are matched exactly -----

  /** The pieces after the literal prefix, without leading empty ones (runs of stars). */
  function FirstPieces(rest: seq<string>): (f: seq<string>)
    requires |rest| >= 1
    ensures |f| >= 1 && (|f| == 1 || f[0] != "")
  {
    if |rest| > 1 && rest[0] == "" then FirstPieces(rest[1..]) else rest
  }

  /** The literal prefix l ends in characters that the next piece can reuse. */
  ghost predicate Reuses(l: string, rest: seq<string>)
    requires |rest| >= 1
  {
    var f := FirstPieces(rest);
    exists k :: 0 <= k < |l| && (l[k..] <= f[0] || (|f| > 1 && f[0] <= l[k..]))
  }

  /** A condition on the pattern alone: what follows its first star can reuse the end of
      what stands before it. */
  ghost predicate SelfOverlapping(p: string) {
    '*' in p && Reuses(Literal(p), Pieces(p))
  }

  function Concat(parts: seq<string>): string {
    if parts == [] then "" else parts[0] + Concat(parts[1..])
  }

  lemma {:induction false} TailFirstPieces(rest: seq<string>, r: string)
    requires |rest| >= 1
    ensures Tail(rest, r) <==> Tail(FirstPieces(rest), r)
    decreases |rest|
  {
    if |rest| > 1 && rest[0] == "" {
      TailFirstPieces(rest[1..], r);
      if Tail(rest, r) {
        var k :| OccursAt(r, rest[0], k) && Tail(rest[1..], r[k + |rest[0]|..]);
        TailMonotone(rest[1..], r, k);
      }
      if Tail(rest[1..], r) {
        assert OccursAt(r, rest[0], 0) && r[0..] == r;
      }
    }
  }

  lemma {:induction false} TailNeedsRoom(parts: seq<string>, r: string)
    requires |parts| >= 1 && Tail(parts, r)
    ensures |r| >= |Concat(parts)|
    decreases |parts|
  {
    if |parts| > 1 {
      var k :| OccursAt(r, parts[0], k) && Tail(parts[1..], r[k + |parts[0]|..]);
      TailNeedsRoom(parts[1..], r[k + |parts[0]|..]);
    } else {
      assert parts[1..] == [];
    }
  }

  lemma {:induction false} TailOfConcat(parts: seq<string>, before: string)
    requires |parts| >= 1
    ensures Tail(parts, before + Concat(parts))
    decreases |parts|
  {
    var r := before + Concat(parts);
    var k := |before|;
    if |parts| == 1 {
      assert parts[1..] == [] && Concat(parts) == parts[0];
    } else {
      TailOfConcat(parts[1..], "");
      assert r[k + |parts[0]|..] == "" + Concat(parts[1..]);
      assert OccursAt(r, parts[0], k);
    }
  }

  /** A resource on which a self-overlapping pattern is matched wrongly. */
  lemma OverlapWitness(l: string, f: seq<string>, k: nat) returns (r: string)
    requires |f| >= 1 && (|f| == 1 || f[0] != "") && k < |l|
    requires l[k..] <= f[0] || (|f| > 1 && f[0] <= l[k..])
    ensures l <= r && Tail(f, r) && !Tail(f, r[|l|..])
  {
    if l[k..] <= f[0] {
      r := l[..k] + Concat(f);
      TailOfConcat(f, l[..k]);
      assert l == l[..k] + l[k..];
    } else {
      r := l + Concat(f[1..]);
      var after := l[k + |f[0]|..];
      TailOfConcat(f[1..], after);
      assert r[k + |f[0]|..] == after + Concat(f[1..]);
      assert r[k..k + |f[0]|] == l[k..][..|f[0]|];
      assert OccursAt(r, f[0], k);
    }
    if Tail(f, r[|l|..]) {
      TailNeedsRoom(f, r[|l|..]);
    }
  }

  lemma EndsWithCut(r: string, s: string, i: nat)
    requires i <= |r|
    ensures i + |s| <= |r| && EndsWith(r, s) ==> EndsWith(r[i..], s)
  {
    if i + |s| <= |r| {
      assert r[i..][|r| - i - |s|..] == r[|r| - |s|..];
    }
  }

  /** Conversely, a wrong match starts inside the literal prefix. */
  lemma WrongMatchOverlaps(l: string, f: seq<string>, r: string) returns (k: nat)
    requires |f| >= 1
    requires l <= r && Tail(f, r) && !Tail(f, r[|l|..])
    ensures k < |l| && (l[k..] <= f[0] || (|f| > 1 && f[0] <= l[k..]))
  {
    var cut := r[|l|..];
    if |f| == 1 {
      k := |r| - |f[0]|;
      EndsWithCut(r, f[0], |l|);
      assert l[k..] == r[k..][..|l| - k];
    } else {
      var j :| OccursAt(r, f[0], j) && Tail(f[1..], r[j + |f[0]|..]);
      if j >= |l| {
        assert cut[j - |l|..j - |l| + |f[0]|] == r[j..j + |f[0]|];
        assert cut[j - |l| + |f[0]|..] == r[j + |f[0]|..];
        assert OccursAt(cut, f[0], j - |l|);
      }
      k := j;
      if j + |f[0]| <= |l| {
        assert l[k..][..|f[0]|] == r[j..j + |f[0]|];
      } else {
        assert l[k..] == r[j..j + |f[0]|][..|l| - k];
      }
    }
  }

  lemma OverlapIffReuses(l: string, rest: seq<string>)
    requires |rest| >= 1
    ensures (exists r :: l <= r && Tail(rest, r) && !Tail(rest, r[|l|..])) <==> Reuses(l, rest)
  {
    var f := FirstPieces(rest);
    if Reuses(l, rest) {
      var k :| 0 <= k < |l| && (l[k..] <= f[0] || (|f| > 1 && f[0] <= l[k..]));
      var r := OverlapWitness(l, f, k);
      TailFirstPieces(rest, r);
      TailFirstPieces(rest, r[|l|..]);
    }
    if r :| l <= r && Tail(rest, r) && !Tail(rest, r[|l|..]) {
      TailFirstPieces(rest, r);
      TailFirstPieces(rest, r[|l|..]);
      var k := WrongMatchOverlaps(l, f, r);
    }
  }

  /** The matcher meets the wildcard meaning on every resource if and only if the pattern
      does not overlap itself. */
  lemma ExactIffNotSelfOverlapping(p: string)
    ensures (forall r :: Matches(p, r) <==> Wild(p, r)) <==> !SelfOverlapping(p)
  {
    if '*' !in p {
      forall r ensures Matches(p, r) <==> Wild(p, r) {
        StarFreeIsExact(p, r);
      }
    } else {
      var l, rest := Literal(p), Pieces(p);
      SplitAtStar(p);
      forall r {
        PiecesMeaning(p, r);
      }
      OverlapIffReuses(l, rest);
      if Reuses(l, rest) {
        var r :| l <= r && Tail(rest, r) && !Tail(rest, r[|l|..]);
        assert Matches(p, r) && !Wild(p, r);
      }
      forall r | Wild(p, r) ensures Matches(p, r) {
        MatchesIsComplete(p, r);
      }
    }
  }

  lemma StarFreeIsExact(p: string, r: string)
    requires '*' !in p
    ensures Wild(p, r) <==> r == p
  {
    WildLiteral(p, "", r);
    assert p + "" == p;
    if p <= r {
      assert r == p + r[|p|..];
    }
  }

  /** The matcher and the meaning, both over the pieces: only the meaning cuts off the
      literal prefix before it looks for the rest. */
  lemma PiecesMeaning(p: string, r: string)
    requires '*' in p
    ensures Matches(p, r) <==> Literal(p) <= r && Tail(Pieces(p), r)
    ensures Wild(p, r) <==> Literal(p) <= r && Tail(Pieces(p), r[|Literal(p)|..])
  {
    MatchesOverPieces(p, r);
    StarredShape(p);
    WildOverTail(p, Literal(p), p[|Literal(p)| + 1..], r);
  }

  lemma WildOverTail(p: string, l: string, q: string, r: string)
    requires '*' !in l && p == l + ("*" + q)
    ensures Wild(p, r) <==> l <= r && Tail(Split(q), r[|l|..])
  {
    WildLiteral(l, "*" + q, r);
    if l <= r {
      TailMeaning(q, r[|l|..]);
    }
  }

  /** A pattern X* with a star-free X accepts exactly the strings that begin with X. */
  lemma PrefixPattern(x: string, r: string)
    requires '*' !in x
    ensures Matches(x + "*", r) <==> x <= r
  {
    var p := x + "*";
    assert p[|x|] == '*';
    LiteralIsLongest(p);
    var l := Literal(p);
    assert forall i :: 0 <= i < |l| ==> l[i] == p[i] && l[i] in l;
    assert forall i :: 0 <= i < |x| ==> x[i] == p[i] && x[i] in x;
    assert l == x && p[|l|..] == "*";
    StarMatchesAll(r);
  }
}
