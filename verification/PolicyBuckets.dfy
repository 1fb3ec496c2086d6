/**
 What SetPolicy does to the grants on a bucket's own resource: an exact condition, on the list
 it is called with, for each of them to stay.
*/
module PolicyBuckets {
  import opened Wrappers
  import opened Resources
  import opened Conditions
  import opened Policy
  import opened PolicyGrants

  // ----- one statement -----

  /** The statement is about bucket b and no other. */
  predicate IsLone(s: Statement, b: string) {
    s.resources == {BucketResource(b)}
  }

  /** Stripping a lone statement leaves this action: unconditioned listing and uploads as long
      as another statement uses them, conditioned listing for every prefix but x. */
  predicate LeftBy(a: Action, scope: Scope, x: string, readInUse: bool, writeInUse: bool) {
    match scope
    case Always => (a == ListBucket ==> readInUse) && (a == ListBucketMultipartUploads ==> writeInUse)
    case ForPrefix(v) => x == "" || v != x
  }

  /** The statement's grant on its bucket outlives the stripping of (b, x). */
  predicate Outlives(s: Statement, b: string, x: string, readInUse: bool, writeInUse: bool, a: Action, scope: Scope) {
    && GrantedBy(s, BucketResource(b), a, scope)
    && IsLone(s, b)
    && LeftBy(a, scope, x, readInUse, writeInUse)
  }

  lemma StripLoneConditioned(s: Statement, b: string, x: string, readInUse: bool, writeInUse: bool,
                             a: Action, scope: Scope)
    requires BucketStatement(s) && IsLone(s, b) && s.conditions != None
    ensures var s' := Stripped(s, b, x, readInUse, writeInUse);
            && (GrantedBy(s', BucketResource(b), a, scope)
                <==> GrantedBy(s, BucketResource(b), a, scope) && LeftBy(a, scope, x, readInUse, writeInUse))
            && (s'.actions != {} ==> s'.conditions != None && PrefixValues(s') == ValuesLeft(s, x))
            && (s'.actions == {} <==> ValuesLeft(s, x) == {})
  {
    assert |s.resources| == 1;
    var c := s.conditions.value;
    WithoutPrefixOfCondition(c, x);
    if x == "" {
      assert ValuesLeft(s, x) == c[StringEquals][S3Prefix];
    } else {
      assert ValuesLeft(s, x) == c[StringEquals][S3Prefix] - {x};
    }
  }

  /** The prefixes that a conditioned statement still lists. */
  function ValuesLeft(s: Statement, x: string): set<string> {
    if x == "" then PrefixValues(s) else PrefixValues(s) - {x}
  }

  lemma StripSharedGrants(s: Statement, b: string, x: string, readInUse: bool, writeInUse: bool, a: Action, scope: Scope)
    requires ValidBucket(b) && ValidPrefix(x) && BucketStatement(s) && !IsLone(s, b)
    ensures !GrantedBy(Stripped(s, b, x, readInUse, writeInUse), BucketResource(b), a, scope)
  {
    StripBucket(s, b, x, readInUse, writeInUse);
  }

  lemma StripObjectGrants(s: Statement, b: string, x: string, readInUse: bool, writeInUse: bool, a: Action, scope: Scope)
    requires ValidBucket(b) && ValidPrefix(x) && ObjectStatement(s)
    ensures BucketResource(b) !in s.resources
    ensures !GrantedBy(Stripped(s, b, x, readInUse, writeInUse), BucketResource(b), a, scope)
  {
    BucketResourceShape(b);
    if BucketResource(b) in s.resources {
      KindsDiffer(BucketResource(b));
    }
    StripObject(s, b, x, readInUse, writeInUse);
  }

  lemma StripPlainGrants(s: Statement, b: string, x: string, readInUse: bool, writeInUse: bool, a: Action, scope: Scope)
    requires ValidBucket(b) && ValidPrefix(x) && BucketStatement(s) && IsLone(s, b) && s.conditions == None
    ensures GrantedBy(Stripped(s, b, x, readInUse, writeInUse), BucketResource(b), a, scope)
       <==> GrantedBy(s, BucketResource(b), a, scope) && LeftBy(a, scope, x, readInUse, writeInUse)
  {
    StripPlain(s, b, x, readInUse, writeInUse);
  }

  /** Stripping (b, x) from a statement leaves exactly those of its grants on the bucket that
      Outlives names. */
  lemma StripBucketGrants(s: Statement, b: string, x: string, readInUse: bool, writeInUse: bool,
                          a: Action, scope: Scope)
    requires ValidBucket(b) && ValidPrefix(x) && WellFormed(s)
    ensures GrantedBy(Stripped(s, b, x, readInUse, writeInUse), BucketResource(b), a, scope)
       <==> Outlives(s, b, x, readInUse, writeInUse, a, scope)
  {
    if !BucketStatement(s) {
      StripObjectGrants(s, b, x, readInUse, writeInUse, a, scope);
    } else if !IsLone(s, b) {
      StripSharedGrants(s, b, x, readInUse, writeInUse, a, scope);
    } else if s.conditions == None {
      StripPlainGrants(s, b, x, readInUse, writeInUse, a, scope);
    } else {
      StripLoneConditioned(s, b, x, readInUse, writeInUse, a, scope);
    }
  }

  // ----- the first loop -----

  /** The resources of the prefixes that a lone conditioned statement still lists. */
  function ListedBy(s: Statement, b: string, x: string): set<string> {
    if IsLone(s, b) && s.conditions != None
    then set v | v in ValuesLeft(s, x) :: BucketResource(b) + "/" + v + "*"
    else {}
  }

  function ListedByAll(ss: seq<Statement>, b: string, x: string): set<string> {
    if ss == [] then {} else ListedByAll(ss[..|ss| - 1], b, x) + ListedBy(ss[|ss| - 1], b, x)
  }

  /** The loop sets statement s aside, behind statements that list these resources: it still
      lists the bucket without a condition. */
  predicate SetAside(s: Statement, b: string, listed: set<string>, readInUse: bool) {
    IsLone(s, b) && s.conditions == None && ListBucket in s.actions && readInUse && listed != {}
  }

  /** Stripping leaves nothing of the statement. */
  predicate Vanishes(s: Statement, b: string, x: string, readInUse: bool, writeInUse: bool) {
    || s.resources == {ObjectResource(b, x)}
    || (IsLone(s, b) && if s.conditions == None then VanishesPlain(s, readInUse, writeInUse) else ValuesLeft(s, x) == {})
  }

  predicate VanishesPlain(s: Statement, readInUse: bool, writeInUse: bool) {
    && GetBucketLocation !in s.actions
    && (readInUse ==> ListBucket !in s.actions)
    && (writeInUse ==> ListBucketMultipartUploads !in s.actions)
  }

  /** What the loop makes of one statement, judged by the statement as it was. */
  predicate Swept(s: Statement, s': Statement, b: string, x: string, readInUse: bool, writeInUse: bool) {
    && (s'.actions == {} <==> Vanishes(s, b, x, readInUse, writeInUse))
    && (ListsBucket(s', b) && s'.conditions != None ==> PrefixResources(s', b) == ListedBy(s, b, x))
    && (s'.actions != {} && !(ListsBucket(s', b) && s'.conditions != None) ==> ListedBy(s, b, x) == {})
    && (s'.actions == {} ==> ListedBy(s, b, x) == {})
    && (ListsBucket(s', b) && s'.conditions == None
        <==> IsLone(s, b) && s.conditions == None && ListBucket in s.actions && readInUse)
  }

  lemma SweptObject(s: Statement, b: string, x: string, readInUse: bool, writeInUse: bool)
    requires ValidBucket(b) && ValidPrefix(x) && ObjectStatement(s)
    ensures Swept(s, Stripped(s, b, x, readInUse, writeInUse), b, x, readInUse, writeInUse)
  {
    BucketResourceShape(b);
    StripObject(s, b, x, readInUse, writeInUse);
    if BucketResource(b) in s.resources {
      KindsDiffer(BucketResource(b));
    }
  }

  lemma StripPlain(s: Statement, b: string, x: string, readInUse: bool, writeInUse: bool)
    requires ValidBucket(b) && ValidPrefix(x) && BucketStatement(s) && IsLone(s, b) && s.conditions == None
    ensures Stripped(s, b, x, readInUse, writeInUse)
         == s.(actions := s.actions - (if readInUse then {} else READ_ONLY_BUCKET_ACTIONS)
                                    - (if writeInUse then {} else WRITE_ONLY_BUCKET_ACTIONS))
  {
    assert |s.resources| == 1 && BucketResource(b) in s.resources;
    assert s.actions - {} == s.actions;
  }

  lemma SweptPlain(s: Statement, b: string, x: string, readInUse: bool, writeInUse: bool)
    requires ValidBucket(b) && ValidPrefix(x) && BucketStatement(s) && IsLone(s, b) && s.conditions == None
    ensures Swept(s, Stripped(s, b, x, readInUse, writeInUse), b, x, readInUse, writeInUse)
  {
    ObjectResourceShape(b, x);
    StripPlain(s, b, x, readInUse, writeInUse);
    var s' := Stripped(s, b, x, readInUse, writeInUse);
    assert BucketResource(b) in s.resources && ObjectResource(b, x) !in s.resources;
    if a :| a in s'.actions {
      assert a in BUCKET_ACTIONS;
    }
  }

  lemma SweptConditioned(s: Statement, b: string, x: string, readInUse: bool, writeInUse: bool)
    requires ValidBucket(b) && ValidPrefix(x) && BucketStatement(s) && IsLone(s, b) && s.conditions != None
    ensures Swept(s, Stripped(s, b, x, readInUse, writeInUse), b, x, readInUse, writeInUse)
  {
    ObjectResourceShape(b, x);
    StripBucket(s, b, x, readInUse, writeInUse);
    StripLoneConditioned(s, b, x, readInUse, writeInUse, ListBucket, Always);
    assert BucketResource(b) in s.resources && ObjectResource(b, x) !in s.resources;
    var s' := Stripped(s, b, x, readInUse, writeInUse);
    if s'.actions != {} {
      assert BucketStatement(s') && ListsBucket(s', b);
    }
  }

  lemma SweptShared(s: Statement, b: string, x: string, readInUse: bool, writeInUse: bool)
    requires ValidBucket(b) && ValidPrefix(x) && BucketStatement(s) && !IsLone(s, b)
    ensures Swept(s, Stripped(s, b, x, readInUse, writeInUse), b, x, readInUse, writeInUse)
  {
    ObjectResourceShape(b, x);
    StripBucket(s, b, x, readInUse, writeInUse);
    assert ObjectResource(b, x) in {ObjectResource(b, x)};
  }

  lemma SweptAny(s: Statement, b: string, x: string, readInUse: bool, writeInUse: bool)
    requires ValidBucket(b) && ValidPrefix(x) && WellFormed(s)
    ensures Swept(s, Stripped(s, b, x, readInUse, writeInUse), b, x, readInUse, writeInUse)
  {
    if !BucketStatement(s) {
      SweptObject(s, b, x, readInUse, writeInUse);
    } else if !IsLone(s, b) {
      SweptShared(s, b, x, readInUse, writeInUse);
    } else if s.conditions == None {
      SweptPlain(s, b, x, readInUse, writeInUse);
    } else {
      SweptConditioned(s, b, x, readInUse, writeInUse);
    }
  }

  /** A statement that is passed over is judged in the same way: it is left as it is. */
  lemma SweptPassedOver(s: Statement, b: string, x: string, readInUse: bool, writeInUse: bool)
    requires ValidBucket(b) && ValidPrefix(x) && WellFormed(s) && !IsValidStatement(s, b)
    ensures Stripped(s, b, x, readInUse, writeInUse) == s
  {
    PassedOverHoldsNothing(s, b, x);
  }

  /** Where a stripped statement goes. */
  function Routed(w: Sweep, s': Statement, b: string): Sweep {
    if s'.actions == {} then w
    else if !ListsBucket(s', b) then w.(out := w.out + [s'])
    else if s'.conditions != None then w.(out := w.out + [s'], prefixes := w.prefixes + PrefixResources(s', b))
    else if w.prefixes != {} then w.(aside := w.aside + [s'])
    else w.(out := w.out + [s'])
  }

  lemma SweepOneRoutes(w: Sweep, s: Statement, b: string, x: string, readInUse: bool, writeInUse: bool)
    requires ValidBucket(b) && ValidPrefix(x) && WellFormed(s)
    ensures SweepOne(w, s, b, x, readInUse, writeInUse) == Routed(w, Stripped(s, b, x, readInUse, writeInUse), b)
  {
    if !IsValidStatement(s, b) {
      PassedOverHoldsNothing(s, b, x);
      SweptPassedOver(s, b, x, readInUse, writeInUse);
    }
  }

  /** The last step of the loop: where the stripped statement s' goes, and what it is. */
  lemma LastSwept(ss: seq<Statement>, b: string, x: string, readInUse: bool, writeInUse: bool) returns (s': Statement)
    requires ValidBucket(b) && ValidPrefix(x) && AllWellFormed(ss) && ss != []
    ensures s' == Stripped(ss[|ss| - 1], b, x, readInUse, writeInUse)
    ensures Swept(ss[|ss| - 1], s', b, x, readInUse, writeInUse)
    ensures SweepAll(ss, b, x, readInUse, writeInUse)
         == Routed(SweepAll(ss[..|ss| - 1], b, x, readInUse, writeInUse), s', b)
  {
    var last := ss[|ss| - 1];
    s' := Stripped(last, b, x, readInUse, writeInUse);
    SweptAny(last, b, x, readInUse, writeInUse);
    SweepOneRoutes(SweepAll(ss[..|ss| - 1], b, x, readInUse, writeInUse), last, b, x, readInUse, writeInUse);
  }

  lemma LastGranted(ss: seq<Statement>, b: string, x: string, readInUse: bool, writeInUse: bool,
                    a: Action, scope: Scope) returns (s': Statement)
    requires ValidBucket(b) && ValidPrefix(x) && AllWellFormed(ss) && ss != []
    ensures Swept(ss[|ss| - 1], s', b, x, readInUse, writeInUse)
    ensures SweepAll(ss, b, x, readInUse, writeInUse)
         == Routed(SweepAll(ss[..|ss| - 1], b, x, readInUse, writeInUse), s', b)
    ensures GrantedBy(s', BucketResource(b), a, scope)
       <==> Outlives(ss[|ss| - 1], b, x, readInUse, writeInUse, a, scope)
  {
    s' := LastSwept(ss, b, x, readInUse, writeInUse);
    StripBucketGrants(ss[|ss| - 1], b, x, readInUse, writeInUse, a, scope);
  }

  lemma {:induction false} PrefixesAreListed(ss: seq<Statement>, b: string, x: string, readInUse: bool, writeInUse: bool)
    requires ValidBucket(b) && ValidPrefix(x) && AllWellFormed(ss)
    ensures var w := SweepAll(ss, b, x, readInUse, writeInUse);
            && w.prefixes == ListedByAll(ss, b, x)
            && (w.prefixes != {} ==> exists k :: 0 <= k < |w.out| && w.out[k].conditions != None)
            && (forall k :: 0 <= k < |w.aside| ==> SkippedAside(w.aside[k], b))
  {
    if ss != [] {
      var init := ss[..|ss| - 1];
      PrefixesAreListed(init, b, x, readInUse, writeInUse);
      var s' := LastGranted(ss, b, x, readInUse, writeInUse, ListBucket, Always);
      RoutedListed(SweepAll(init, b, x, readInUse, writeInUse), ss[|ss| - 1], s', b, x, readInUse, writeInUse);
    }
  }

  lemma RoutedListed(w: Sweep, s: Statement, s': Statement, b: string, x: string, readInUse: bool, writeInUse: bool)
    requires Swept(s, s', b, x, readInUse, writeInUse)
    requires w.prefixes != {} ==> exists k :: 0 <= k < |w.out| && w.out[k].conditions != None
    requires forall k :: 0 <= k < |w.aside| ==> SkippedAside(w.aside[k], b)
    ensures var w' := Routed(w, s', b);
            && w'.prefixes == w.prefixes + ListedBy(s, b, x)
            && (w'.prefixes != {} ==> exists k :: 0 <= k < |w'.out| && w'.out[k].conditions != None)
            && (forall k :: 0 <= k < |w'.aside| ==> SkippedAside(w'.aside[k], b))
  {
    var w' := Routed(w, s', b);
    if w.prefixes != {} {
      var k :| 0 <= k < |w.out| && w.out[k].conditions != None;
      assert w'.out[k] == w.out[k];
    } else if w'.prefixes != {} {
      assert w'.out[|w.out|] == s';
    }
  }

  /** Statement i's grant on the bucket outlives the first loop, and is set aside or not. */
  predicate OutlivesAt(ss: seq<Statement>, i: nat, b: string, x: string, readInUse: bool, writeInUse: bool,
                       a: Action, scope: Scope, aside: bool)
    requires i < |ss|
  {
    && Outlives(ss[i], b, x, readInUse, writeInUse, a, scope)
    && SetAside(ss[i], b, ListedByAll(ss[..i], b, x), readInUse) == aside
  }

  predicate OutlivesIn(ss: seq<Statement>, b: string, x: string, readInUse: bool, writeInUse: bool,
                       a: Action, scope: Scope, aside: bool)
  {
    exists i :: 0 <= i < |ss| && OutlivesAt(ss, i, b, x, readInUse, writeInUse, a, scope, aside)
  }

  lemma OutlivesAtSnoc(init: seq<Statement>, last: Statement, i: nat, b: string, x: string,
                       readInUse: bool, writeInUse: bool, a: Action, scope: Scope, aside: bool)
    requires i <= |init|
    ensures OutlivesAt(init + [last], i, b, x, readInUse, writeInUse, a, scope, aside) <==>
      if i < |init| then OutlivesAt(init, i, b, x, readInUse, writeInUse, a, scope, aside)
      else && Outlives(last, b, x, readInUse, writeInUse, a, scope)
           && SetAside(last, b, ListedByAll(init, b, x), readInUse) == aside
  {
    var ss := init + [last];
    if i < |init| {
      assert ss[i] == init[i] && ss[..i] == init[..i];
    } else {
      assert ss[i] == last && ss[..i] == init;
    }
  }

  lemma OutlivesSnoc(ss: seq<Statement>, b: string, x: string, readInUse: bool, writeInUse: bool,
                     a: Action, scope: Scope, aside: bool, now: bool)
    requires ss != [] && (now <==> OutlivesAt(ss, |ss| - 1, b, x, readInUse, writeInUse, a, scope, aside))
    ensures OutlivesIn(ss, b, x, readInUse, writeInUse, a, scope, aside)
       <==> OutlivesIn(ss[..|ss| - 1], b, x, readInUse, writeInUse, a, scope, aside) || now
  {
    var init, last := ss[..|ss| - 1], ss[|ss| - 1];
    assert init + [last] == ss;
    forall i | 0 <= i < |init|
      ensures OutlivesAt(ss, i, b, x, readInUse, writeInUse, a, scope, aside)
         <==> OutlivesAt(init, i, b, x, readInUse, writeInUse, a, scope, aside)
    {
      OutlivesAtSnoc(init, last, i, b, x, readInUse, writeInUse, a, scope, aside);
    }
  }

  /** The statements of the first loop that are set aside, or those that are not. */
  function Side(w: Sweep, aside: bool): seq<Statement> {
    if aside then w.aside else w.out
  }

  lemma RoutedGrants(w: Sweep, s': Statement, b: string, r: string, a: Action, scope: Scope, aside: bool)
    ensures var parked := ListsBucket(s', b) && s'.conditions == None && w.prefixes != {};
            Granted(Side(Routed(w, s', b), aside), r, a, scope)
            <==> Granted(Side(w, aside), r, a, scope) || (GrantedBy(s', r, a, scope) && parked == aside)
  {
    GrantedConcat(w.out, [s'], r, a, scope);
    GrantedConcat(w.aside, [s'], r, a, scope);
    GrantedOne(s', r, a, scope);
  }

  lemma SweptGrantStep(w: Sweep, s: Statement, s': Statement, b: string, x: string,
                       readInUse: bool, writeInUse: bool, a: Action, scope: Scope, aside: bool)
    requires Swept(s, s', b, x, readInUse, writeInUse)
    requires GrantedBy(s', BucketResource(b), a, scope) <==> Outlives(s, b, x, readInUse, writeInUse, a, scope)
    ensures Granted(Side(Routed(w, s', b), aside), BucketResource(b), a, scope) <==>
      || Granted(Side(w, aside), BucketResource(b), a, scope)
      || (Outlives(s, b, x, readInUse, writeInUse, a, scope) && SetAside(s, b, w.prefixes, readInUse) == aside)
  {
    RoutedGrants(w, s', b, BucketResource(b), a, scope, aside);
  }

  lemma LastGrantedIff(ss: seq<Statement>, b: string, x: string, readInUse: bool, writeInUse: bool,
                       a: Action, scope: Scope, aside: bool, now: bool)
    requires ValidBucket(b) && ValidPrefix(x) && AllWellFormed(ss) && ss != []
    requires now <==> OutlivesAt(ss, |ss| - 1, b, x, readInUse, writeInUse, a, scope, aside)
    ensures Granted(Side(SweepAll(ss, b, x, readInUse, writeInUse), aside), BucketResource(b), a, scope) <==>
      Granted(Side(SweepAll(ss[..|ss| - 1], b, x, readInUse, writeInUse), aside), BucketResource(b), a, scope) || now
  {
    var init := ss[..|ss| - 1];
    PrefixesAreListed(init, b, x, readInUse, writeInUse);
    var s' := LastGranted(ss, b, x, readInUse, writeInUse, a, scope);
    SweptGrantStep(SweepAll(init, b, x, readInUse, writeInUse), ss[|ss| - 1], s',
                   b, x, readInUse, writeInUse, a, scope, aside);
  }

  /** The last step adds the last statement's grant on both sides of the equivalence below. */
  lemma LastOutlives(ss: seq<Statement>, b: string, x: string, readInUse: bool, writeInUse: bool,
                     a: Action, scope: Scope, aside: bool) returns (now: bool)
    requires ValidBucket(b) && ValidPrefix(x) && AllWellFormed(ss) && ss != []
    ensures var init := ss[..|ss| - 1];
            && (Granted(Side(SweepAll(ss, b, x, readInUse, writeInUse), aside), BucketResource(b), a, scope)
                <==> Granted(Side(SweepAll(init, b, x, readInUse, writeInUse), aside), BucketResource(b), a, scope) || now)
            && (OutlivesIn(ss, b, x, readInUse, writeInUse, a, scope, aside)
                <==> OutlivesIn(init, b, x, readInUse, writeInUse, a, scope, aside) || now)
  {
    now := OutlivesAt(ss, |ss| - 1, b, x, readInUse, writeInUse, a, scope, aside);
    LastGrantedIff(ss, b, x, readInUse, writeInUse, a, scope, aside, now);
    OutlivesSnoc(ss, b, x, readInUse, writeInUse, a, scope, aside, now);
  }

  /** After the first loop, exactly these grants on the bucket are left, on either side. */
  lemma {:induction false} SweptGrants(ss: seq<Statement>, b: string, x: string, readInUse: bool, writeInUse: bool,
                                       a: Action, scope: Scope, aside: bool)
    requires ValidBucket(b) && ValidPrefix(x) && AllWellFormed(ss)
    ensures Granted(Side(SweepAll(ss, b, x, readInUse, writeInUse), aside), BucketResource(b), a, scope)
       <==> OutlivesIn(ss, b, x, readInUse, writeInUse, a, scope, aside)
  {
    if ss != [] {
      var init, last := ss[..|ss| - 1], ss[|ss| - 1];
      SweptGrants(init, b, x, readInUse, writeInUse, a, scope, aside);
      PrefixesAreListed(init, b, x, readInUse, writeInUse);
      var now := LastOutlives(ss, b, x, readInUse, writeInUse, a, scope, aside);
    }
  }

  // ----- the second loop -----

  /** The statement holds objects of b, others than b/x*, and none of the listed ones. */
  predicate Unlisted(s: Statement, b: string, x: string, listed: set<string>) {
    var rs := s.resources - {ObjectResource(b, x)};
    (exists r :: r in rs && ObjectResourcePrefix(b) <= r) && listed * rs == {}
  }

  /** What the loop makes of a statement that stays, as far as its objects go. */
  lemma StrippedUnlisted(s: Statement, b: string, x: string, readInUse: bool, writeInUse: bool, listed: set<string>)
    requires ValidBucket(b) && ValidPrefix(x) && WellFormed(s)
    ensures var s' := Stripped(s, b, x, readInUse, writeInUse);
            && (s'.actions != {} && HoldsObjectsOf(s', b) && listed * s'.resources == {} <==> Unlisted(s, b, x, listed))
            && (ListsBucket(s', b) ==> !Unlisted(s, b, x, listed))
  {
    var s' := Stripped(s, b, x, readInUse, writeInUse);
    if BucketStatement(s) {
      StripBucket(s, b, x, readInUse, writeInUse);
      forall r | r in s.resources
        ensures !(ObjectResourcePrefix(b) <= r)
      {
        BucketResourceIsNotBelow(r, b);
      }
    } else {
      BucketResourceShape(b);
      StripObject(s, b, x, readInUse, writeInUse);
      if BucketResource(b) in s.resources {
        KindsDiffer(BucketResource(b));
      }
    }
  }

  predicate SomeUnlisted(ss: seq<Statement>, b: string, x: string, listed: set<string>) {
    exists i :: 0 <= i < |ss| && Unlisted(ss[i], b, x, listed)
  }

  predicate HoldsUnlisted(out: seq<Statement>, b: string, listed: set<string>) {
    exists i :: 0 <= i < |out| && HoldsObjectsOf(out[i], b) && listed * out[i].resources == {}
  }

  lemma UnlistedSnoc(ss: seq<Statement>, s: Statement, b: string, x: string, listed: set<string>)
    ensures SomeUnlisted(ss + [s], b, x, listed) <==> SomeUnlisted(ss, b, x, listed) || Unlisted(s, b, x, listed)
    ensures HoldsUnlisted(ss + [s], b, listed)
       <==> HoldsUnlisted(ss, b, listed) || (HoldsObjectsOf(s, b) && listed * s.resources == {})
  {
    var all := ss + [s];
    assert all[|ss|] == s && forall i :: 0 <= i < |ss| ==> all[i] == ss[i];
  }

  lemma RoutedUnlisted(w: Sweep, s: Statement, s': Statement, b: string, x: string, listed: set<string>)
    requires s'.actions != {} && HoldsObjectsOf(s', b) && listed * s'.resources == {} <==> Unlisted(s, b, x, listed)
    requires ListsBucket(s', b) ==> !Unlisted(s, b, x, listed)
    ensures HoldsUnlisted(Routed(w, s', b).out, b, listed) <==> HoldsUnlisted(w.out, b, listed) || Unlisted(s, b, x, listed)
  {
    UnlistedSnoc(w.out, s', b, x, listed);
  }

  lemma LastHeldUnlisted(ss: seq<Statement>, b: string, x: string, readInUse: bool, writeInUse: bool,
                         listed: set<string>, now: bool)
    requires ValidBucket(b) && ValidPrefix(x) && AllWellFormed(ss) && ss != []
    requires now <==> Unlisted(ss[|ss| - 1], b, x, listed)
    ensures HoldsUnlisted(SweepAll(ss, b, x, readInUse, writeInUse).out, b, listed) <==>
      HoldsUnlisted(SweepAll(ss[..|ss| - 1], b, x, readInUse, writeInUse).out, b, listed) || now
  {
    var last := ss[|ss| - 1];
    var s' := LastSwept(ss, b, x, readInUse, writeInUse);
    StrippedUnlisted(last, b, x, readInUse, writeInUse, listed);
    RoutedUnlisted(SweepAll(ss[..|ss| - 1], b, x, readInUse, writeInUse), last, s', b, x, listed);
  }

  lemma LastUnlisted(ss: seq<Statement>, b: string, x: string, readInUse: bool, writeInUse: bool, listed: set<string>)
    returns (now: bool)
    requires ValidBucket(b) && ValidPrefix(x) && AllWellFormed(ss) && ss != []
    ensures var init := ss[..|ss| - 1];
            && (HoldsUnlisted(SweepAll(ss, b, x, readInUse, writeInUse).out, b, listed)
                <==> HoldsUnlisted(SweepAll(init, b, x, readInUse, writeInUse).out, b, listed) || now)
            && (SomeUnlisted(ss, b, x, listed) <==> SomeUnlisted(init, b, x, listed) || now)
  {
    now := Unlisted(ss[|ss| - 1], b, x, listed);
    LastHeldUnlisted(ss, b, x, readInUse, writeInUse, listed, now);
    UnlistedSnoc(ss[..|ss| - 1], ss[|ss| - 1], b, x, listed);
    assert ss[..|ss| - 1] + [ss[|ss| - 1]] == ss;
  }

  lemma {:induction false} SweptUnlisted(ss: seq<Statement>, b: string, x: string, readInUse: bool, writeInUse: bool,
                                         listed: set<string>)
    requires ValidBucket(b) && ValidPrefix(x) && AllWellFormed(ss)
    ensures HoldsUnlisted(SweepAll(ss, b, x, readInUse, writeInUse).out, b, listed) <==> SomeUnlisted(ss, b, x, listed)
  {
    if ss != [] {
      SweptUnlisted(ss[..|ss| - 1], b, x, readInUse, writeInUse, listed);
      var now := LastUnlisted(ss, b, x, readInUse, writeInUse, listed);
    }
  }

  lemma {:induction false} KeptIsAllOrNothing(aside: seq<Statement>, b: string, skip: bool)
    requires forall k :: 0 <= k < |aside| ==> SkippedAside(aside[k], b)
    ensures Kept(aside, b, skip) == if skip then [] else aside
  {
    if aside != [] {
      KeptIsAllOrNothing(aside[..|aside| - 1], b, skip);
    }
  }

  // ----- the last step -----

  /** The statements that stripping leaves. */
  function Survivors(ss: seq<Statement>, b: string, x: string, readInUse: bool, writeInUse: bool): seq<Statement> {
    if ss == [] then []
    else
      var s' := Stripped(ss[|ss| - 1], b, x, readInUse, writeInUse);
      Survivors(ss[..|ss| - 1], b, x, readInUse, writeInUse) + (if s'.actions == {} then [] else [s'])
  }

  lemma {:induction false} SweptSurvivors(ss: seq<Statement>, b: string, x: string, readInUse: bool, writeInUse: bool)
    requires ValidBucket(b) && ValidPrefix(x) && AllWellFormed(ss)
    ensures var w, left := SweepAll(ss, b, x, readInUse, writeInUse), Survivors(ss, b, x, readInUse, writeInUse);
            && |w.out| + |w.aside| == |left|
            && (w.aside == [] ==> w.out == left)
            && (w.aside != [] ==> w.prefixes != {})
  {
    if ss != [] {
      SweptSurvivors(ss[..|ss| - 1], b, x, readInUse, writeInUse);
      var s' := LastSwept(ss, b, x, readInUse, writeInUse);
    }
  }

  /** All statements vanish but one, which grants the bucket's location without a condition. */
  predicate LeavesOnlyCommon(ss: seq<Statement>, b: string, x: string, readInUse: bool, writeInUse: bool) {
    exists i :: 0 <= i < |ss| && IsCommon(ss[i], b) && AllVanishBut(ss, i, b, x, readInUse, writeInUse)
  }

  predicate AllVanish(ss: seq<Statement>, b: string, x: string, readInUse: bool, writeInUse: bool) {
    forall j :: 0 <= j < |ss| ==> Vanishes(ss[j], b, x, readInUse, writeInUse)
  }

  lemma AllVanishSnoc(init: seq<Statement>, last: Statement, b: string, x: string, readInUse: bool, writeInUse: bool)
    ensures AllVanish(init + [last], b, x, readInUse, writeInUse)
       <==> AllVanish(init, b, x, readInUse, writeInUse) && Vanishes(last, b, x, readInUse, writeInUse)
  {
    var ss := init + [last];
    assert ss[|init|] == last && forall j :: 0 <= j < |init| ==> ss[j] == init[j];
  }

  predicate IsCommon(s: Statement, b: string) {
    IsLone(s, b) && s.conditions == None && GetBucketLocation in s.actions
  }

  lemma LeavesOnlyCommonSnoc(init: seq<Statement>, last: Statement, b: string, x: string, readInUse: bool, writeInUse: bool)
    ensures LeavesOnlyCommon(init + [last], b, x, readInUse, writeInUse) <==>
      || (LeavesOnlyCommon(init, b, x, readInUse, writeInUse) && Vanishes(last, b, x, readInUse, writeInUse))
      || (AllVanish(init, b, x, readInUse, writeInUse) && IsCommon(last, b))
  {
    var ss, n := init + [last], |init|;
    forall i | 0 <= i < n
      ensures AllVanishBut(ss, i, b, x, readInUse, writeInUse)
         <==> AllVanishBut(init, i, b, x, readInUse, writeInUse) && Vanishes(last, b, x, readInUse, writeInUse)
      ensures ss[i] == init[i]
    {
      AllVanishButSnoc(init, last, i, b, x, readInUse, writeInUse);
    }
    AllVanishButSnoc(init, last, n, b, x, readInUse, writeInUse);
    assert ss[n] == last;
  }

  predicate AllVanishBut(ss: seq<Statement>, i: int, b: string, x: string, readInUse: bool, writeInUse: bool) {
    forall j :: 0 <= j < |ss| && j != i ==> Vanishes(ss[j], b, x, readInUse, writeInUse)
  }

  lemma AllVanishButSnoc(init: seq<Statement>, last: Statement, i: nat, b: string, x: string,
                         readInUse: bool, writeInUse: bool)
    requires i <= |init|
    ensures AllVanishBut(init + [last], i, b, x, readInUse, writeInUse) <==>
      if i == |init| then AllVanish(init, b, x, readInUse, writeInUse)
      else AllVanishBut(init, i, b, x, readInUse, writeInUse) && Vanishes(last, b, x, readInUse, writeInUse)
  {
    var ss := init + [last];
    assert ss[|init|] == last && forall j :: 0 <= j < |init| ==> ss[j] == init[j];
  }

  /** The common statement is plain before and after stripping. */
  lemma CommonStaysCommon(s: Statement, b: string, x: string, readInUse: bool, writeInUse: bool)
    requires ValidBucket(b) && ValidPrefix(x) && WellFormed(s)
    ensures var s' := Stripped(s, b, x, readInUse, writeInUse);
            SkippedAside(s', b) && GetBucketLocation in s'.actions <==> IsCommon(s, b)
    ensures IsCommon(s, b) ==> !Vanishes(s, b, x, readInUse, writeInUse)
  {
    ObjectResourceShape(b, x);
    BucketResourceShape(b);
    StripBucketGrants(s, b, x, readInUse, writeInUse, GetBucketLocation, Always);
    if IsCommon(s, b) {
      assert BucketResource(b) in s.resources;
      NotAnObjectStatement(s, b);
      assert ObjectResource(b, x) !in s.resources;
    }
  }

  lemma NotAnObjectStatement(s: Statement, b: string)
    requires ValidBucket(b) && WellFormed(s) && BucketResource(b) in s.resources
    ensures BucketStatement(s)
  {
    BucketResourceShape(b);
    if IsObjectResource(BucketResource(b)) {
      KindsDiffer(BucketResource(b));
    }
  }

  lemma {:induction false} SurvivorsNone(ss: seq<Statement>, b: string, x: string, readInUse: bool, writeInUse: bool)
    requires ValidBucket(b) && ValidPrefix(x) && AllWellFormed(ss)
    ensures Survivors(ss, b, x, readInUse, writeInUse) == [] <==> AllVanish(ss, b, x, readInUse, writeInUse)
  {
    if ss != [] {
      var init, last := ss[..|ss| - 1], ss[|ss| - 1];
      SurvivorsNone(init, b, x, readInUse, writeInUse);
      SweptAny(last, b, x, readInUse, writeInUse);
      AllVanishSnoc(init, last, b, x, readInUse, writeInUse);
      assert init + [last] == ss;
    }
  }

  lemma OnlyCommonSnoc(left: seq<Statement>, s': Statement, b: string)
    ensures OnlyCommon(left + [s'], b) <==> left == [] && SkippedAside(s', b) && GetBucketLocation in s'.actions
    ensures left + [] == left
  {
    if left == [] {
      assert (left + [s'])[0] == s';
    }
  }

  lemma {:induction false} SurvivorsOnlyCommon(ss: seq<Statement>, b: string, x: string, readInUse: bool, writeInUse: bool)
    requires ValidBucket(b) && ValidPrefix(x) && AllWellFormed(ss)
    ensures OnlyCommon(Survivors(ss, b, x, readInUse, writeInUse), b) <==> LeavesOnlyCommon(ss, b, x, readInUse, writeInUse)
  {
    if ss != [] {
      var init, last := ss[..|ss| - 1], ss[|ss| - 1];
      SurvivorsOnlyCommon(init, b, x, readInUse, writeInUse);
      LastOnlyCommon(ss, b, x, readInUse, writeInUse);
      LeavesOnlyCommonSnoc(init, last, b, x, readInUse, writeInUse);
      assert init + [last] == ss;
    }
  }

  lemma LastOnlyCommon(ss: seq<Statement>, b: string, x: string, readInUse: bool, writeInUse: bool)
    requires ValidBucket(b) && ValidPrefix(x) && AllWellFormed(ss) && ss != []
    ensures var init, last := ss[..|ss| - 1], ss[|ss| - 1];
            OnlyCommon(Survivors(ss, b, x, readInUse, writeInUse), b) <==>
              || (OnlyCommon(Survivors(init, b, x, readInUse, writeInUse), b)
                  && Vanishes(last, b, x, readInUse, writeInUse))
              || (AllVanish(init, b, x, readInUse, writeInUse) && IsCommon(last, b))
  {
    var init, last := ss[..|ss| - 1], ss[|ss| - 1];
    SurvivorsNone(init, b, x, readInUse, writeInUse);
    SweptAny(last, b, x, readInUse, writeInUse);
    CommonStaysCommon(last, b, x, readInUse, writeInUse);
    OnlyCommonSnoc(Survivors(init, b, x, readInUse, writeInUse), Stripped(last, b, x, readInUse, writeInUse), b);
  }

  // ----- the whole removal -----

  /** The grant is left by the removal of (b, x) from the list: a statement that holds it
      outlives the stripping; it is not set aside, or the statements set aside are needed
      because objects of b are held outside the listed prefixes; and something else than the
      plain bucket statement is left. */
  predicate BucketGrantStays(ss: seq<Statement>, b: string, x: string, a: Action, scope: Scope) {
    var readInUse := InUse(ss, b, x, READ_ONLY_OBJECT_ACTIONS);
    var writeInUse := InUse(ss, b, x, WRITE_ONLY_OBJECT_ACTIONS);
    && !LeavesOnlyCommon(ss, b, x, readInUse, writeInUse)
    && (|| OutlivesIn(ss, b, x, readInUse, writeInUse, a, scope, false)
        || (&& OutlivesIn(ss, b, x, readInUse, writeInUse, a, scope, true)
            && SomeUnlisted(ss, b, x, ListedByAll(ss, b, x))))
  }

  lemma FinishedOnlyCommon(w: Sweep, left: seq<Statement>, b: string, skip: bool)
    requires |w.out| + |w.aside| == |left|
    requires w.aside == [] ==> w.out == left
    requires w.aside != [] ==> exists k :: 0 <= k < |w.out| && w.out[k].conditions != None
    ensures OnlyCommon(w.out + (if skip then [] else w.aside), b) <==> OnlyCommon(left, b)
  {
    var out := w.out + (if skip then [] else w.aside);
    if w.aside == [] {
      assert out == left;
    } else {
      var k :| 0 <= k < |w.out| && w.out[k].conditions != None;
      assert out[k] == w.out[k];
    }
  }

  lemma SkipIffNoneUnlisted(w: Sweep, b: string)
    ensures SkipAside(w, b) <==> !HoldsUnlisted(w.out, b, w.prefixes)
  {
  }

  /** Removing (b, x) from a list leaves exactly these grants on the bucket. */
  lemma RemovedBucketGrants(ss: seq<Statement>, b: string, x: string, a: Action, scope: Scope)
    requires ValidBucket(b) && ValidPrefix(x) && AllWellFormed(ss)
    ensures Granted(Removed(ss, b, x), BucketResource(b), a, scope) <==> BucketGrantStays(ss, b, x, a, scope)
  {
    var readInUse := InUse(ss, b, x, READ_ONLY_OBJECT_ACTIONS);
    var writeInUse := InUse(ss, b, x, WRITE_ONLY_OBJECT_ACTIONS);
    var w := SweepAll(ss, b, x, readInUse, writeInUse);
    var skip := SkipAside(w, b);
    SweptGrants(ss, b, x, readInUse, writeInUse, a, scope, false);
    SweptGrants(ss, b, x, readInUse, writeInUse, a, scope, true);
    PrefixesAreListed(ss, b, x, readInUse, writeInUse);
    SweptUnlisted(ss, b, x, readInUse, writeInUse, w.prefixes);
    SkipIffNoneUnlisted(w, b);
    KeptIsAllOrNothing(w.aside, b, skip);
    SweptSurvivors(ss, b, x, readInUse, writeInUse);
    FinishedOnlyCommon(w, Survivors(ss, b, x, readInUse, writeInUse), b, skip);
    SurvivorsOnlyCommon(ss, b, x, readInUse, writeInUse);
    FinishBucketGrants(w, b, skip, a, scope);
  }

  lemma FinishBucketGrants(w: Sweep, b: string, skip: bool, a: Action, scope: Scope)
    ensures Granted(w.out + (if skip then [] else w.aside), BucketResource(b), a, scope)
       <==> Granted(w.out, BucketResource(b), a, scope) || (!skip && Granted(w.aside, BucketResource(b), a, scope))
  {
    GrantedConcat(w.out, if skip then [] else w.aside, BucketResource(b), a, scope);
  }

  /** Setting a policy: after it, a bucket grant holds if and only if the policy stands for it
      or the removal before it leaves it. */
  lemma WithPolicyBucketGrantsIff(ss: seq<Statement>, p: BucketPolicy, b: string, x: string, a: Action, scope: Scope)
    requires ValidBucket(b) && ValidPrefix(x) && AllWellFormed(ss)
    ensures Granted(WithPolicy(ss, p, b, x), BucketResource(b), a, scope)
       <==> PolicyGrant(p, b, x, BucketResource(b), a, scope) || BucketGrantStays(ss, b, x, a, scope)
  {
    ObjectResourceShape(b, x);
    BucketResourceShape(b);
    if ObjectResource(b, x) == BucketResource(b) {
      KindsDiffer(BucketResource(b));
    }
    RemovedGrants(ss, b, x, ObjectResource(b, x), a, scope);
    RemovedBucketGrants(ss, b, x, a, scope);
    NewStatementsWellFormed(p, b, x);
    NewStatementsGrant(p, b, x, BucketResource(b), a, scope);
    AppendAllAddsGrants(Removed(ss, b, x), NewStatements(p, b, x), BucketResource(b), a, scope);
  }
}
