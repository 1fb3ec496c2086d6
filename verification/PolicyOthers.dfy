/**
 What `SetPolicy` leaves alone, on every list of statements, also those that the library would
 never build: denials and grants to particular users, and statements about other buckets.
*/
module PolicyOthers {
  import opened Conditions
  import opened Policy
  import opened PolicyBuckets
  import opened Resources
  import opened Sequences
  import opened Wrappers

  // ----- denials and grants to particular users -----

  /** The statement does not let everyone do something. */
  predicate Foreign(s: Statement) {
    s.effect != Allow || "*" !in s.principal.aws
  }

  /** The foreign statements of a list, in order. */
  function ForeignOf(ss: seq<Statement>): seq<Statement> {
    if ss == [] then [] else ForeignOf(ss[..|ss| - 1]) + (if Foreign(ss[|ss| - 1]) then [ss[|ss| - 1]] else [])
  }

  lemma ForeignSnoc(ss: seq<Statement>, s: Statement)
    ensures ForeignOf(ss + [s]) == ForeignOf(ss) + (if Foreign(s) then [s] else [])
  {
    assert (ss + [s])[..|ss|] == ss;
  }

  lemma {:induction false} ForeignConcat(ss: seq<Statement>, ts: seq<Statement>)
    ensures ForeignOf(ss + ts) == ForeignOf(ss) + ForeignOf(ts)
  {
    if ts == [] {
      assert ss + ts == ss;
    } else {
      var n := |ts| - 1;
      ForeignConcat(ss, ts[..n]);
      ForeignSnoc(ss + ts[..n], ts[n]);
      Associates(ForeignOf(ss), ForeignOf(ts[..n]), if Foreign(ts[n]) then [ts[n]] else []);
      assert (ss + ts[..n]) + [ts[n]] == ss + ts;
    }
  }

  lemma StrippedKeepsParty(s: Statement, b: string, x: string, readInUse: bool, writeInUse: bool)
    ensures var s' := Stripped(s, b, x, readInUse, writeInUse);
            s'.effect == s.effect && s'.principal == s.principal
  {
  }

  lemma {:induction false} SweepKeepsForeign(ss: seq<Statement>, b: string, x: string, readInUse: bool, writeInUse: bool)
    ensures var w := SweepAll(ss, b, x, readInUse, writeInUse);
            ForeignOf(w.out) == ForeignOf(ss) && ForeignOf(w.aside) == []
  {
    if ss != [] {
      var n := |ss| - 1;
      SweepKeepsForeign(ss[..n], b, x, readInUse, writeInUse);
      var w := SweepAll(ss[..n], b, x, readInUse, writeInUse);
      var w', s' := OneGoesOn(w, ss[n], b, x, readInUse, writeInUse);
      RoutingKeepsForeign(w, w', ss[n], s', b);
    }
  }

  /** One step of the loop: a statement that is valid for b goes on as s', which is for the same
      party. */
  lemma OneGoesOn(w: Sweep, s: Statement, b: string, x: string, readInUse: bool, writeInUse: bool)
    returns (w': Sweep, s': Statement)
    ensures w' == SweepOne(w, s, b, x, readInUse, writeInUse)
    ensures s'.effect == s.effect && s'.principal == s.principal
    ensures w' == if !IsValidStatement(s, b) then w.(out := w.out + [s]) else Routed(w, s', b)
  {
    w' := SweepOne(w, s, b, x, readInUse, writeInUse);
    s' := Stripped(s, b, x, readInUse, writeInUse);
    StrippedKeepsParty(s, b, x, readInUse, writeInUse);
  }

  lemma PlainSnoc(ss: seq<Statement>, s: Statement)
    requires !Foreign(s)
    ensures ForeignOf(ss + [s]) == ForeignOf(ss)
  {
    ForeignSnoc(ss, s);
  }

  lemma RoutingKeepsForeign(w: Sweep, w': Sweep, s: Statement, s': Statement, b: string)
    requires ForeignOf(w.aside) == [] && s'.effect == s.effect && s'.principal == s.principal
    requires w' == if !IsValidStatement(s, b) then w.(out := w.out + [s]) else Routed(w, s', b)
    ensures ForeignOf(w'.out) == if Foreign(s) then ForeignOf(w.out) + [s] else ForeignOf(w.out)
    ensures ForeignOf(w'.aside) == []
  {
    if Foreign(s) {
      ForeignSnoc(w.out, s);
    } else {
      PlainSnoc(w.out, s);
      PlainSnoc(w.out, s');
      PlainSnoc(w.aside, s');
    }
  }

  lemma NoForeignSnoc(ss: seq<Statement>)
    requires ss != [] && ForeignOf(ss) == []
    ensures ForeignOf(ss[..|ss| - 1]) == [] && !Foreign(ss[|ss| - 1])
  {
    assert |ForeignOf(ss)| >= |ForeignOf(ss[..|ss| - 1])|;
  }

  lemma {:induction false} KeptHasNoForeign(aside: seq<Statement>, b: string, skip: bool)
    requires ForeignOf(aside) == []
    ensures ForeignOf(Kept(aside, b, skip)) == []
  {
    if aside != [] {
      var n := |aside| - 1;
      NoForeignSnoc(aside);
      KeptHasNoForeign(aside[..n], b, skip);
      ForeignSnoc(Kept(aside[..n], b, skip), aside[n]);
      assert Kept(aside[..n], b, skip) + [] == Kept(aside[..n], b, skip);
    }
  }

  lemma RemovedKeepsForeign(ss: seq<Statement>, b: string, x: string)
    ensures ForeignOf(Removed(ss, b, x)) == ForeignOf(ss)
  {
    var readInUse := InUse(ss, b, x, READ_ONLY_OBJECT_ACTIONS);
    var writeInUse := InUse(ss, b, x, WRITE_ONLY_OBJECT_ACTIONS);
    var w := SweepAll(ss, b, x, readInUse, writeInUse);
    var kept := Kept(w.aside, b, SkipAside(w, b));
    SweepKeepsForeign(ss, b, x, readInUse, writeInUse);
    KeptHasNoForeign(w.aside, b, SkipAside(w, b));
    ForeignConcat(w.out, kept);
    if OnlyCommon(w.out + kept, b) {
      OneIsNotForeign((w.out + kept)[0]);
      assert w.out + kept == [(w.out + kept)[0]];
    }
  }

  lemma OneIsNotForeign(s: Statement)
    requires !Foreign(s)
    ensures ForeignOf([s]) == []
  {
    ForeignSnoc([], s);
    assert [] + [s] == [s];
  }

  /** Only a statement for everyone takes one for everyone in, and remains one. */
  lemma TakersAreNotForeign(s: Statement, t: Statement)
    requires !Foreign(t) && MergedInto(s, t) != None
    ensures !Foreign(s) && !Foreign(MergedInto(s, t).value)
  {
  }

  lemma {:induction false} AppendedKeepsForeign(ss: seq<Statement>, t: Statement)
    requires !Foreign(t)
    ensures ForeignOf(Appended(ss, t)) == ForeignOf(ss)
  {
    if ss == [] {
      OneIsNotForeign(t);
    } else {
      AppendedKeepsForeign(ss[1..], t);
      ForeignConcat([ss[0]], ss[1..]);
      ForeignConcat([ss[0]], Appended(ss[1..], t));
      assert [ss[0]] + ss[1..] == ss;
      if MergedInto(ss[0], t) != None {
        var m := MergedInto(ss[0], t).value;
        TakersAreNotForeign(ss[0], t);
        OneIsNotForeign(ss[0]);
        OneIsNotForeign(m);
        ForeignConcat([m], ss[1..]);
      }
    }
  }

  lemma {:induction false} AppendedAllKeepsForeign(ss: seq<Statement>, ts: seq<Statement>)
    requires forall i :: 0 <= i < |ts| ==> !Foreign(ts[i])
    ensures ForeignOf(AppendedAll(ss, ts)) == ForeignOf(ss)
    decreases |ts|
  {
    if ts != [] {
      AppendedKeepsForeign(ss, ts[0]);
      AppendedAllKeepsForeign(Appended(ss, ts[0]), ts[1..]);
    }
  }

  lemma NewStatementsAreForEveryone(p: BucketPolicy, b: string, x: string)
    ensures forall i :: 0 <= i < |NewStatements(p, b, x)| ==>
      var t := NewStatements(p, b, x)[i];
      !Foreign(t) && (t.resources == {BucketResource(b)} || t.resources == {ObjectResource(b, x)})
  {
    assert forall i :: 0 <= i < |NewBucketStatement(p, b, x)| ==>
      var t := NewBucketStatement(p, b, x)[i];
      !Foreign(t) && t.resources == {BucketResource(b)};
  }

  /** Setting a policy neither changes, drops, reorders nor adds a denial or a statement about
      particular users, whatever the list. */
  lemma SetKeepsForeign(ss: seq<Statement>, p: BucketPolicy, b: string, x: string)
    ensures ForeignOf(WithPolicy(ss, p, b, x)) == ForeignOf(ss)
  {
    RemovedKeepsForeign(ss, b, x);
    NewStatementsAreForEveryone(p, b, x);
    AppendedAllKeepsForeign(Removed(ss, b, x), NewStatements(p, b, x));
  }

  // ----- statements about other buckets -----

  /** None of the statement's resources is bucket b or below it. */
  predicate Elsewhere(s: Statement, b: string) {
    s.resources != {} && forall r :: r in s.resources ==> r != BucketResource(b) && !(ObjectResourcePrefix(b) <= r)
  }

  /** None of its actions is one that the library sets. */
  predicate Unknown(s: Statement) {
    forall a :: a in s.actions ==> a !in VALID_ACTIONS
  }

  /** It has a condition, and is not about the bucket itself. */
  predicate ConditionedObjects(s: Statement, b: string) {
    s.conditions != None && BucketResource(b) !in s.resources
  }

  predicate LeftAlone(s: Statement, b: string) {
    Elsewhere(s, b) || Unknown(s) || ConditionedObjects(s, b)
  }

  /** A statement with a condition keeps all its actions unless the condition goes. */
  lemma ConditionKeepsActions(s: Statement, b: string, x: string, readInUse: bool, writeInUse: bool)
    requires s.conditions != None
    ensures var s' := Stripped(s, b, x, readInUse, writeInUse);
            && (s'.conditions != None ==> s'.actions == s.actions)
            && (s'.conditions == None ==>
                  && s'.actions == s.actions - {ListBucket, ListBucketMultipartUploads}
                  && WithoutPrefix(s.conditions.value, x) == None && x != "" && s.resources == {BucketResource(b)})
  {
    if BucketResource(b) in s.resources && |s.resources| <= 1 {
      OnlyElement(s.resources, BucketResource(b));
    }
  }

  lemma OnlyElement(rs: set<string>, r: string)
    requires r in rs && |rs| <= 1
    ensures rs == {r}
  {
    assert |rs - {r}| == |rs| - 1;
  }

  lemma {:induction false} SweepKeeps(ss: seq<Statement>, b: string, x: string, readInUse: bool, writeInUse: bool, s: Statement)
    requires s in ss && LeftAlone(s, b)
    ensures s in SweepAll(ss, b, x, readInUse, writeInUse).out
  {
    var n := |ss| - 1;
    if s == ss[n] {
      assert IsValidStatement(s, b) ==> ConditionedObjects(s, b) && s.actions != {};
    } else {
      SweepKeeps(ss[..n], b, x, readInUse, writeInUse, s);
    }
  }

  /** Removing a prefix leaves statements about other buckets, about other actions, and those
      with a condition that are not about the bucket itself, as they are. */
  lemma RemovedKeeps(ss: seq<Statement>, b: string, x: string, s: Statement)
    requires s in ss && LeftAlone(s, b)
    ensures s in Removed(ss, b, x)
  {
    var readInUse := InUse(ss, b, x, READ_ONLY_OBJECT_ACTIONS);
    var writeInUse := InUse(ss, b, x, WRITE_ONLY_OBJECT_ACTIONS);
    var w := SweepAll(ss, b, x, readInUse, writeInUse);
    SweepKeeps(ss, b, x, readInUse, writeInUse, s);
    FinishKeeps(w.out, Kept(w.aside, b, SkipAside(w, b)), b, s);
  }

  lemma FinishKeeps(out: seq<Statement>, kept: seq<Statement>, b: string, s: Statement)
    requires s in out && LeftAlone(s, b)
    ensures s in out + kept && !OnlyCommon(out + kept, b)
  {
    assert GetBucketLocation in VALID_ACTIONS;
    var i :| 0 <= i < |out| && out[i] == s;
    assert (out + kept)[i] == s;
  }

  /** The statement is still there, at most with some resources of b besides its own. */
  predicate IsExtended(s': Statement, s: Statement, b: string, x: string) {
    && s' == s.(resources := s'.resources)
    && s.resources <= s'.resources <= s.resources + {BucketResource(b), ObjectResource(b, x)}
  }

  predicate StaysIn(ss: seq<Statement>, s: Statement, b: string, x: string) {
    exists i :: 0 <= i < |ss| && IsExtended(ss[i], s, b, x)
  }

  lemma MergeExtends(s': Statement, s: Statement, t: Statement, b: string, x: string)
    requires Elsewhere(s, b) && IsExtended(s', s, b, x)
    requires t.resources == {BucketResource(b)} || t.resources == {ObjectResource(b, x)}
    requires MergedInto(s', t) != None
    ensures IsExtended(MergedInto(s', t).value, s, b, x)
  {
    var r :| r in s.resources;
    assert r in s'.resources && r !in t.resources;
  }

  lemma {:induction false} AppendedExtends(ss: seq<Statement>, t: Statement, s: Statement, b: string, x: string)
    requires Elsewhere(s, b) && StaysIn(ss, s, b, x)
    requires t.resources == {BucketResource(b)} || t.resources == {ObjectResource(b, x)}
    ensures StaysIn(Appended(ss, t), s, b, x)
  {
    var i :| 0 <= i < |ss| && IsExtended(ss[i], s, b, x);
    if MergedInto(ss[0], t) != None {
      if i == 0 {
        MergeExtends(ss[0], s, t, b, x);
        assert IsExtended(Appended(ss, t)[0], s, b, x);
      } else {
        assert Appended(ss, t)[i] == ss[i];
      }
    } else if i == 0 {
      assert Appended(ss, t)[0] == ss[0];
    } else {
      assert ss[1..][i - 1] == ss[i];
      AppendedExtends(ss[1..], t, s, b, x);
      var j :| 0 <= j < |Appended(ss[1..], t)| && IsExtended(Appended(ss[1..], t)[j], s, b, x);
      assert Appended(ss, t)[j + 1] == Appended(ss[1..], t)[j];
    }
  }

  lemma {:induction false} AppendedAllExtends(ss: seq<Statement>, ts: seq<Statement>, s: Statement, b: string, x: string)
    requires Elsewhere(s, b) && StaysIn(ss, s, b, x)
    requires forall i :: 0 <= i < |ts| ==> ts[i].resources == {BucketResource(b)} || ts[i].resources == {ObjectResource(b, x)}
    ensures StaysIn(AppendedAll(ss, ts), s, b, x)
    decreases |ts|
  {
    if ts != [] {
      AppendedExtends(ss, ts[0], s, b, x);
      AppendedAllExtends(Appended(ss, ts[0]), ts[1..], s, b, x);
    }
  }

  /** Setting a policy for a bucket leaves every statement about other buckets in place, with
      its actions, principals and conditions; it may get resources of the bucket besides. */
  lemma SetKeepsOthers(ss: seq<Statement>, p: BucketPolicy, b: string, x: string, s: Statement)
    requires s in ss && Elsewhere(s, b)
    ensures StaysIn(WithPolicy(ss, p, b, x), s, b, x)
  {
    var rs := Removed(ss, b, x);
    RemovedKeeps(ss, b, x, s);
    var i :| 0 <= i < |rs| && rs[i] == s;
    assert IsExtended(rs[i], s, b, x);
    NewStatementsAreForEveryone(p, b, x);
    AppendedAllExtends(rs, NewStatements(p, b, x), s, b, x);
  }
}
