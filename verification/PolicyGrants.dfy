/**
 What a statement list grants, and how removing and merging statements change it.
 The claims are about lists whose statements have the shapes that setting policies creates.
*/
module PolicyGrants {
  import opened Wrappers
  import opened Resources
  import opened Conditions
  import opened Policy

  /** A grant holds always, or only for requests that name one prefix. */
  datatype Scope = Always | ForPrefix(prefix: string)

  predicate InScope(s: Statement, scope: Scope) {
    match scope
    case Always => s.conditions == None
    case ForPrefix(v) => s.conditions != None && Lists(s.conditions.value, StringEquals, S3Prefix, v)
  }

  /** Statement s lets everyone do action a on resource r within the scope. */
  predicate GrantedBy(s: Statement, r: string, a: Action, scope: Scope) {
    && r in s.resources
    && a in s.actions
    && s.effect == Allow
    && "*" in s.principal.aws
    && InScope(s, scope)
  }

  ghost predicate Granted(ss: seq<Statement>, r: string, a: Action, scope: Scope) {
    exists i :: 0 <= i < |ss| && GrantedBy(ss[i], r, a, scope)
  }

  // ----- the shapes of statements -----

  const BUCKET_ACTIONS := COMMON_BUCKET_ACTIONS + READ_ONLY_BUCKET_ACTIONS + WRITE_ONLY_BUCKET_ACTIONS

  predicate AllowsEveryone(s: Statement) {
    && s.effect == Allow
    && s.principal.aws == {"*"}
    && s.actions != {}
    && s.resources != {}
  }

  /** A condition on a nonempty set of prefixes and nothing else. */
  predicate IsPrefixCondition(c: ConditionMap) {
    && c.Keys == {StringEquals}
    && c[StringEquals].Keys == {S3Prefix}
    && c[StringEquals][S3Prefix] != {}
  }

  predicate BucketStatement(s: Statement) {
    && AllowsEveryone(s)
    && s.actions <= BUCKET_ACTIONS
    && (forall r :: r in s.resources ==> IsBucketResource(r))
    && (s.conditions != None ==> IsPrefixCondition(s.conditions.value) && s.actions == READ_ONLY_BUCKET_ACTIONS)
  }

  predicate ObjectStatement(s: Statement) {
    && AllowsEveryone(s)
    && s.conditions == None
    && (s.actions == READ_ONLY_OBJECT_ACTIONS
        || s.actions == WRITE_ONLY_OBJECT_ACTIONS
        || s.actions == READ_WRITE_OBJECT_ACTIONS)
    && (forall r :: r in s.resources ==> IsObjectResource(r))
  }

  predicate WellFormed(s: Statement) {
    BucketStatement(s) || ObjectStatement(s)
  }

  predicate AllWellFormed(ss: seq<Statement>) {
    forall i :: 0 <= i < |ss| ==> WellFormed(ss[i])
  }

  // ----- new statements -----

  predicate Readable(p: BucketPolicy) { p == ReadOnly || p == ReadWrite }

  predicate Writable(p: BucketPolicy) { p == WriteOnly || p == ReadWrite }

  /** The scope in which a readable prefix lists its bucket. */
  function ListScope(x: string): Scope {
    if x == "" then Always else ForPrefix(x)
  }

  /** The grants a policy stands for. */
  predicate PolicyGrant(p: BucketPolicy, b: string, x: string, r: string, a: Action, scope: Scope) {
    || (r == ObjectResource(b, x) && scope == Always && a in ObjectActions(p))
    || (r == BucketResource(b) && p != NoPolicy
        && (|| (a == GetBucketLocation && scope == Always)
            || (a == ListBucket && scope == ListScope(x) && Readable(p))
            || (a == ListBucketMultipartUploads && scope == Always && Writable(p))))
  }

  lemma GrantedConcat(xs: seq<Statement>, ys: seq<Statement>, r: string, a: Action, scope: Scope)
    ensures Granted(xs + ys, r, a, scope) <==> Granted(xs, r, a, scope) || Granted(ys, r, a, scope)
  {
    if i :| 0 <= i < |xs| && GrantedBy(xs[i], r, a, scope) {
      assert (xs + ys)[i] == xs[i];
    }
    if i :| 0 <= i < |ys| && GrantedBy(ys[i], r, a, scope) {
      assert (xs + ys)[|xs| + i] == ys[i];
    }
  }

  lemma GrantedOne(s: Statement, r: string, a: Action, scope: Scope)
    ensures Granted([s], r, a, scope) <==> GrantedBy(s, r, a, scope)
  {
    assert [s][0] == s;
  }

  lemma AllowEveryoneGrants(actions: set<Action>, res: string, r: string, a: Action, scope: Scope)
    ensures GrantedBy(AllowEveryone(actions, None, res), r, a, scope)
       <==> r == res && a in actions && scope == Always
  {
  }

  lemma PrefixListGrants(x: string, res: string, r: string, a: Action, scope: Scope)
    ensures GrantedBy(AllowEveryone(READ_ONLY_BUCKET_ACTIONS, Some(PrefixCondition(x)), res), r, a, scope)
       <==> r == res && a == ListBucket && scope == ForPrefix(x)
  {
  }

  function ListStatement(x: string, res: string): Statement {
    AllowEveryone(READ_ONLY_BUCKET_ACTIONS, if x != "" then Some(PrefixCondition(x)) else None, res)
  }

  lemma BucketStatementsGrant(p: BucketPolicy, b: string, x: string, r: string, a: Action, scope: Scope)
    requires b != "" && p != NoPolicy
    ensures Granted(NewBucketStatement(p, b, x), r, a, scope)
       <==> r == BucketResource(b)
            && (|| (a == GetBucketLocation && scope == Always)
                || (a == ListBucket && scope == ListScope(x) && Readable(p))
                || (a == ListBucketMultipartUploads && scope == Always && Writable(p)))
  {
    var br := BucketResource(b);
    var common := [AllowEveryone(COMMON_BUCKET_ACTIONS, None, br)];
    var lists := if Readable(p) then [ListStatement(x, br)] else [];
    var ups := if Writable(p) then [AllowEveryone(WRITE_ONLY_BUCKET_ACTIONS, None, br)] else [];
    assert NewBucketStatement(p, b, x) == common + lists + ups;
    GrantedConcat(common + lists, ups, r, a, scope);
    GrantedConcat(common, lists, r, a, scope);
    GrantedOne(common[0], r, a, scope);
    AllowEveryoneGrants(COMMON_BUCKET_ACTIONS, br, r, a, scope);
    if Readable(p) {
      GrantedOne(lists[0], r, a, scope);
      AllowEveryoneGrants(READ_ONLY_BUCKET_ACTIONS, br, r, a, scope);
      PrefixListGrants(x, br, r, a, scope);
    }
    if Writable(p) {
      GrantedOne(ups[0], r, a, scope);
      AllowEveryoneGrants(WRITE_ONLY_BUCKET_ACTIONS, br, r, a, scope);
    }
  }

  /** The new statements grant exactly what the policy stands for. */
  lemma NewStatementsGrant(p: BucketPolicy, b: string, x: string, r: string, a: Action, scope: Scope)
    requires b != ""
    ensures Granted(NewStatements(p, b, x), r, a, scope) <==> PolicyGrant(p, b, x, r, a, scope)
  {
    if p != NoPolicy {
      var objects := AllowEveryone(ObjectActions(p), None, ObjectResource(b, x));
      BucketStatementsGrant(p, b, x, r, a, scope);
      GrantedConcat(NewBucketStatement(p, b, x), [objects], r, a, scope);
      GrantedOne(objects, r, a, scope);
      AllowEveryoneGrants(ObjectActions(p), ObjectResource(b, x), r, a, scope);
    }
  }

  lemma BucketShape(actions: set<Action>, conditions: Option<ConditionMap>, res: string)
    requires actions != {} && actions <= BUCKET_ACTIONS && IsBucketResource(res)
    requires conditions != None ==> IsPrefixCondition(conditions.value) && actions == READ_ONLY_BUCKET_ACTIONS
    ensures WellFormed(AllowEveryone(actions, conditions, res))
  {
  }

  lemma NewStatementsWellFormed(p: BucketPolicy, b: string, x: string)
    requires ValidBucket(b) && ValidPrefix(x)
    ensures AllWellFormed(NewStatements(p, b, x))
  {
    BucketResourceShape(b);
    ObjectResourceShape(b, x);
    var br := BucketResource(b);
    BucketShape(COMMON_BUCKET_ACTIONS, None, br);
    BucketShape(READ_ONLY_BUCKET_ACTIONS, None, br);
    BucketShape(READ_ONLY_BUCKET_ACTIONS, Some(PrefixCondition(x)), br);
    BucketShape(WRITE_ONLY_BUCKET_ACTIONS, None, br);
    if p != NoPolicy {
      var objects := AllowEveryone(ObjectActions(p), None, ObjectResource(b, x));
      assert WellFormed(objects);
    }
  }

  // ----- merging -----

  lemma ActionsTellKind(s: Statement, t: Statement)
    requires WellFormed(s) && WellFormed(t) && s.actions * t.actions != {}
    ensures BucketStatement(s) <==> BucketStatement(t)
    ensures BucketStatement(s) ==> !ObjectStatement(s)
  {
    assert BUCKET_ACTIONS * READ_WRITE_OBJECT_ACTIONS == {};
    assert READ_ONLY_OBJECT_ACTIONS <= READ_WRITE_OBJECT_ACTIONS;
    assert WRITE_ONLY_OBJECT_ACTIONS <= READ_WRITE_OBJECT_ACTIONS;
  }

  lemma ResourcesTellKind(s: Statement, t: Statement)
    requires WellFormed(s) && WellFormed(t) && s.resources * t.resources != {}
    ensures BucketStatement(s) <==> BucketStatement(t)
  {
    var r :| r in s.resources * t.resources;
    if IsObjectResource(r) {
      KindsDiffer(r);
    }
  }

  /** Whichever merge rule fires, the merged statement is again of a known shape. */
  lemma MergeKeepsShape(s: Statement, t: Statement)
    requires WellFormed(s) && WellFormed(t) && MergedInto(s, t) != None
    ensures WellFormed(MergedInto(s, t).value)
  {
    var m := MergedInto(s, t).value;
    if s.conditions == t.conditions {
      if s.actions == t.actions {
        assert s.actions * t.actions == s.actions;
        ActionsTellKind(s, t);
      } else if s.resources == t.resources {
        assert s.resources * t.resources == s.resources;
        ResourcesTellKind(s, t);
        if ObjectStatement(s) && !BucketStatement(s) {
          assert READ_ONLY_OBJECT_ACTIONS + WRITE_ONLY_OBJECT_ACTIONS == READ_WRITE_OBJECT_ACTIONS;
        }
      }
    } else if s.conditions != None && t.conditions != None {
      var c := MergedMap(s.conditions.value, t.conditions.value);
      var k := MergedKeyMap(s.conditions.value[StringEquals], t.conditions.value[StringEquals]);
      assert c.Keys == {StringEquals} && c[StringEquals] == k;
      assert k.Keys == {S3Prefix};
    }
  }

  /** Whichever merge rule fires, the merged statement grants exactly what the two did. */
  lemma MergeKeepsGrants(s: Statement, t: Statement, r: string, a: Action, scope: Scope)
    requires WellFormed(s) && WellFormed(t) && MergedInto(s, t) != None
    ensures GrantedBy(MergedInto(s, t).value, r, a, scope)
       <==> GrantedBy(s, r, a, scope) || GrantedBy(t, r, a, scope)
  {
    var m := MergedInto(s, t).value;
    if s.conditions == t.conditions {
      if !(s.actions == t.actions || s.resources == t.resources) {
        assert t.resources <= s.resources && t.actions <= s.actions;
      }
    } else if s.conditions != None && t.conditions != None {
      MergeListsBoth(s.conditions.value, t.conditions.value, StringEquals, S3Prefix,
                     if scope == Always then "" else scope.prefix);
    }
  }

  /** Appending one statement adds exactly its grants. */
  lemma {:induction false} AppendAddsGrants(ss: seq<Statement>, t: Statement, r: string, a: Action, scope: Scope)
    requires AllWellFormed(ss) && WellFormed(t)
    ensures AllWellFormed(Appended(ss, t))
    ensures Granted(Appended(ss, t), r, a, scope) <==> Granted(ss, r, a, scope) || GrantedBy(t, r, a, scope)
  {
    if ss == [] {
      GrantedOne(t, r, a, scope);
    } else {
      var rest := ss[1..];
      assert ss == [ss[0]] + rest;
      GrantedConcat([ss[0]], rest, r, a, scope);
      GrantedOne(ss[0], r, a, scope);
      match MergedInto(ss[0], t) {
        case Some(m) =>
          MergeKeepsShape(ss[0], t);
          MergeKeepsGrants(ss[0], t, r, a, scope);
          GrantedConcat([m], rest, r, a, scope);
          GrantedOne(m, r, a, scope);
        case None =>
          AppendAddsGrants(rest, t, r, a, scope);
          GrantedConcat([ss[0]], Appended(rest, t), r, a, scope);
      }
    }
  }

  /** Appending a list preserves meaning: the result grants the union of the two sides,
      whichever merge rules fire on the way. */
  lemma {:induction false} AppendAllAddsGrants(ss: seq<Statement>, ts: seq<Statement>,
                                               r: string, a: Action, scope: Scope)
    requires AllWellFormed(ss) && AllWellFormed(ts)
    ensures AllWellFormed(AppendedAll(ss, ts))
    ensures Granted(AppendedAll(ss, ts), r, a, scope) <==> Granted(ss, r, a, scope) || Granted(ts, r, a, scope)
    decreases |ts|
  {
    if ts != [] {
      assert ts == [ts[0]] + ts[1..];
      AppendAddsGrants(ss, ts[0], r, a, scope);
      AppendAllAddsGrants(Appended(ss, ts[0]), ts[1..], r, a, scope);
      GrantedConcat([ts[0]], ts[1..], r, a, scope);
      GrantedOne(ts[0], r, a, scope);
    }
  }

  // ----- removing -----

  /** One statement stripped of (b, x): what is left has a known shape, grants the same on
      every resource other than the bucket's and the prefix's own, and nothing on the latter. */
  lemma StripObject(s: Statement, b: string, x: string, readInUse: bool, writeInUse: bool)
    requires ValidBucket(b) && ValidPrefix(x) && ObjectStatement(s)
    ensures var s' := Stripped(s, b, x, readInUse, writeInUse);
            && ObjectResource(b, x) !in (if s'.actions == {} then {} else s'.resources)
            && (s'.actions == {} ==> s.resources == {ObjectResource(b, x)})
            && (s'.actions != {} ==> ObjectStatement(s') && s' == s.(resources := s.resources - {ObjectResource(b, x)}))
  {
    BucketResourceShape(b);
    var r := ObjectResource(b, x);
    if BucketResource(b) in s.resources {
      KindsDiffer(BucketResource(b));
    }
    if r in s.resources {
      SingletonOrMore(s.resources, r);
    } else {
      assert s.resources - {r} == s.resources;
    }
  }

  lemma SingletonOrMore<T>(xs: set<T>, x: T)
    requires x in xs
    ensures if |xs| > 1 then xs - {x} != {} else xs == {x}
  {
    assert |xs - {x}| == |xs| - 1;
    if |xs| <= 1 {
      assert xs - {x} == {};
      assert xs == (xs - {x}) + {x};
    }
  }

  /** A bucket statement that is stripped keeps its other resources untouched, or it held
      the bucket alone. */
  lemma StripBucket(s: Statement, b: string, x: string, readInUse: bool, writeInUse: bool)
    requires ValidBucket(b) && ValidPrefix(x) && BucketStatement(s)
    ensures var s' := Stripped(s, b, x, readInUse, writeInUse);
            && (s'.actions != {} ==> BucketStatement(s'))
            && (BucketResource(b) in s'.resources ==> s.resources == s'.resources == {BucketResource(b)})
            && (s.resources == {BucketResource(b)} ==> s'.resources == s.resources)
            && (s.resources != {BucketResource(b)} ==> s' == s.(resources := s.resources - {BucketResource(b)}))
            && ObjectResource(b, x) !in s.resources
  {
    ObjectResourceShape(b, x);
    var br := BucketResource(b);
    if br in s.resources {
      SingletonOrMore(s.resources, br);
      if s.resources == {br} {
        StripLoneBucket(s, b, x, readInUse, writeInUse);
      }
    } else {
      assert s.resources - {br} == s.resources;
    }
  }

  lemma StripLoneBucket(s: Statement, b: string, x: string, readInUse: bool, writeInUse: bool)
    requires BucketStatement(s) && s.resources == {BucketResource(b)}
    ensures var s' := Stripped(s, b, x, readInUse, writeInUse);
            s'.resources == s.resources && (s'.actions != {} ==> BucketStatement(s'))
  {
    var s1 := WithoutListing(s, x);
    assert s1.resources == s.resources && s1.effect == s.effect && s1.principal == s.principal;
    match s.conditions {
      case None =>
      case Some(c) =>
        if x != "" {
          WithoutPrefixOfCondition(c, x);
        }
    }
  }

  lemma WithoutPrefixOfCondition(c: ConditionMap, x: string)
    requires IsPrefixCondition(c)
    ensures match WithoutPrefix(c, x)
            case None => c[StringEquals][S3Prefix] == {x}
            case Some(c') => IsPrefixCondition(c') && c'[StringEquals][S3Prefix] == c[StringEquals][S3Prefix] - {x}
  {
    var keys := c[StringEquals];
    var left := keys[S3Prefix] - {x};
    if left == {} {
      assert keys - {S3Prefix} == map[];
      assert c - {StringEquals} == map[];
    } else {
      var keys' := keys[S3Prefix := left];
      assert keys'.Keys == {S3Prefix};
      assert c[StringEquals := keys'].Keys == {StringEquals};
    }
  }

  /** A statement that is passed over holds nothing of (b, x). */
  lemma PassedOverHoldsNothing(s: Statement, b: string, x: string)
    requires ValidBucket(b) && ValidPrefix(x) && WellFormed(s) && !IsValidStatement(s, b)
    ensures BucketResource(b) !in s.resources && ObjectResource(b, x) !in s.resources
  {
    ObjectResourceShape(b, x);
    var a :| a in s.actions;
    assert BUCKET_ACTIONS <= VALID_ACTIONS && READ_WRITE_OBJECT_ACTIONS <= VALID_ACTIONS;
    assert a in s.actions * VALID_ACTIONS;
  }

  /** What the statement left by stripping holds. */
  predicate LeftWithout(s: Statement, b: string, x: string) {
    && WellFormed(s)
    && ObjectResource(b, x) !in s.resources
    && (BucketResource(b) in s.resources ==> s.resources == {BucketResource(b)})
  }

  lemma StripGrants(s: Statement, b: string, x: string, readInUse: bool, writeInUse: bool,
                    r: string, a: Action, scope: Scope)
    requires ValidBucket(b) && ValidPrefix(x) && WellFormed(s) && r != BucketResource(b)
    ensures var s' := Stripped(s, b, x, readInUse, writeInUse);
            && (s'.actions != {} ==> LeftWithout(s', b, x))
            && (s'.actions != {} && GrantedBy(s', r, a, scope)
                <==> r != ObjectResource(b, x) && GrantedBy(s, r, a, scope))
  {
    var s' := Stripped(s, b, x, readInUse, writeInUse);
    if BucketStatement(s) {
      StripBucket(s, b, x, readInUse, writeInUse);
      StrippedBucketGrants(s, s', BucketResource(b), ObjectResource(b, x), r, a, scope);
    } else {
      BucketResourceShape(b);
      StripObject(s, b, x, readInUse, writeInUse);
      StrippedObjectGrants(s, s', BucketResource(b), ObjectResource(b, x), r, a, scope);
    }
  }

  lemma StrippedBucketGrants(s: Statement, s': Statement, br: string, or: string,
                             r: string, a: Action, scope: Scope)
    requires BucketStatement(s) && or !in s.resources && r != br
    requires s.resources == {br} ==> s'.resources == s.resources
    requires s.resources != {br} ==> s' == s.(resources := s.resources - {br})
    ensures or !in s'.resources
    ensures s'.actions != {} && GrantedBy(s', r, a, scope) <==> r != or && GrantedBy(s, r, a, scope)
  {
  }

  lemma StrippedObjectGrants(s: Statement, s': Statement, br: string, or: string,
                             r: string, a: Action, scope: Scope)
    requires ObjectStatement(s) && IsBucketResource(br)
    requires s'.actions == {} ==> s.resources == {or}
    requires s'.actions != {} ==> s' == s.(resources := s.resources - {or})
    ensures s'.actions != {} ==> br !in s'.resources
    ensures s'.actions != {} && GrantedBy(s', r, a, scope) <==> r != or && GrantedBy(s, r, a, scope)
  {
    if br in s.resources {
      KindsDiffer(br);
    }
  }

  /** Away from the bucket's own resource, sweeping takes away the grants on b/x* and
      nothing else. */
  lemma {:induction false} SweepGrants(ss: seq<Statement>, b: string, x: string, readInUse: bool, writeInUse: bool,
                                       r: string, a: Action, scope: Scope)
    requires ValidBucket(b) && ValidPrefix(x) && AllWellFormed(ss) && r != BucketResource(b)
    ensures var w := SweepAll(ss, b, x, readInUse, writeInUse);
            && AllLeftWithout(w.out, b, x) && AllLone(w.aside, b)
            && (Granted(w.out, r, a, scope) <==> r != ObjectResource(b, x) && Granted(ss, r, a, scope))
  {
    if ss != [] {
      var init, last := ss[..|ss| - 1], ss[|ss| - 1];
      assert ss == init + [last];
      GrantedConcat(init, [last], r, a, scope);
      GrantedOne(last, r, a, scope);
      SweepGrants(init, b, x, readInUse, writeInUse, r, a, scope);
      SweepOneGrants(SweepAll(init, b, x, readInUse, writeInUse), last, b, x, readInUse, writeInUse, r, a, scope);
    }
  }

  predicate AllLeftWithout(ss: seq<Statement>, b: string, x: string) {
    forall i :: 0 <= i < |ss| ==> LeftWithout(ss[i], b, x)
  }

  /** Statements about the bucket itself only. */
  predicate AllLone(ss: seq<Statement>, b: string) {
    forall i :: 0 <= i < |ss| ==> WellFormed(ss[i]) && ss[i].resources == {BucketResource(b)}
  }

  lemma SweepOneGrants(w: Sweep, s: Statement, b: string, x: string, readInUse: bool, writeInUse: bool,
                       r: string, a: Action, scope: Scope)
    requires ValidBucket(b) && ValidPrefix(x) && WellFormed(s) && r != BucketResource(b)
    requires AllLeftWithout(w.out, b, x) && AllLone(w.aside, b)
    ensures var w' := SweepOne(w, s, b, x, readInUse, writeInUse);
            && AllLeftWithout(w'.out, b, x) && AllLone(w'.aside, b)
            && (Granted(w'.out, r, a, scope)
                <==> Granted(w.out, r, a, scope) || (r != ObjectResource(b, x) && GrantedBy(s, r, a, scope)))
  {
    var s' := if IsValidStatement(s, b) then Stripped(s, b, x, readInUse, writeInUse) else s;
    if IsValidStatement(s, b) {
      StripGrants(s, b, x, readInUse, writeInUse, r, a, scope);
    } else {
      PassedOverHoldsNothing(s, b, x);
    }
    GrantedConcat(w.out, [s'], r, a, scope);
    GrantedOne(s', r, a, scope);
  }

  lemma {:induction false} KeptAreLone(aside: seq<Statement>, b: string, skip: bool)
    requires AllLone(aside, b)
    ensures AllLone(Kept(aside, b, skip), b)
  {
    if aside != [] {
      KeptAreLone(aside[..|aside| - 1], b, skip);
    }
  }

  lemma LoneGrantNothingElse(ss: seq<Statement>, b: string, r: string, a: Action, scope: Scope)
    requires AllLone(ss, b) && r != BucketResource(b)
    ensures !Granted(ss, r, a, scope)
  {
  }

  /** Removing (b, x): away from the bucket's own resource, exactly the grants on b/x* go. */
  lemma RemovedGrants(ss: seq<Statement>, b: string, x: string, r: string, a: Action, scope: Scope)
    requires ValidBucket(b) && ValidPrefix(x) && AllWellFormed(ss) && r != BucketResource(b)
    ensures AllWellFormed(Removed(ss, b, x))
    ensures Granted(Removed(ss, b, x), r, a, scope) <==> r != ObjectResource(b, x) && Granted(ss, r, a, scope)
  {
    var readInUse := InUse(ss, b, x, READ_ONLY_OBJECT_ACTIONS);
    var writeInUse := InUse(ss, b, x, WRITE_ONLY_OBJECT_ACTIONS);
    var w := SweepAll(ss, b, x, readInUse, writeInUse);
    SweepGrants(ss, b, x, readInUse, writeInUse, r, a, scope);
    FinishGrants(w, b, x, SkipAside(w, b), r, a, scope);
  }

  lemma FinishGrants(w: Sweep, b: string, x: string, skip: bool, r: string, a: Action, scope: Scope)
    requires AllLeftWithout(w.out, b, x) && AllLone(w.aside, b) && r != BucketResource(b)
    ensures var out := w.out + Kept(w.aside, b, skip);
            && AllWellFormed(out)
            && (Granted(out, r, a, scope) <==> Granted(w.out, r, a, scope))
            && (OnlyCommon(out, b) ==> !Granted(out, r, a, scope))
  {
    var kept := Kept(w.aside, b, skip);
    KeptAreLone(w.aside, b, skip);
    LoneGrantNothingElse(kept, b, r, a, scope);
    GrantedConcat(w.out, kept, r, a, scope);
    var out := w.out + kept;
    if OnlyCommon(out, b) {
      assert out[0].resources == {BucketResource(b)};
    }
  }

  /** Setting a policy rewrites the grants on the prefix's resource to the policy's object
      actions and leaves every resource alone but that one and the bucket's own. */
  lemma WithPolicyGrants(ss: seq<Statement>, p: BucketPolicy, b: string, x: string,
                         r: string, a: Action, scope: Scope)
    requires ValidBucket(b) && ValidPrefix(x) && AllWellFormed(ss) && r != BucketResource(b)
    ensures AllWellFormed(WithPolicy(ss, p, b, x))
    ensures Granted(WithPolicy(ss, p, b, x), r, a, scope)
       <==> if r == ObjectResource(b, x) then scope == Always && a in ObjectActions(p)
            else Granted(ss, r, a, scope)
  {
    RemovedGrants(ss, b, x, r, a, scope);
    NewStatementsWellFormed(p, b, x);
    NewStatementsGrant(p, b, x, r, a, scope);
    AppendAllAddsGrants(Removed(ss, b, x), NewStatements(p, b, x), r, a, scope);
  }

  /** Setting a policy always leaves the bucket grants it needs itself. */
  lemma WithPolicyBucketGrants(ss: seq<Statement>, p: BucketPolicy, b: string, x: string, a: Action, scope: Scope)
    requires ValidBucket(b) && ValidPrefix(x) && AllWellFormed(ss)
    requires PolicyGrant(p, b, x, BucketResource(b), a, scope)
    ensures Granted(WithPolicy(ss, p, b, x), BucketResource(b), a, scope)
  {
    ObjectResourceShape(b, x);
    BucketResourceShape(b);
    RemovedGrants(ss, b, x, ObjectResource(b, x), a, scope);
    NewStatementsWellFormed(p, b, x);
    NewStatementsGrant(p, b, x, BucketResource(b), a, scope);
    AppendAllAddsGrants(Removed(ss, b, x), NewStatements(p, b, x), BucketResource(b), a, scope);
  }
}
