/**
 Bucket policy statements and the operations that rewrite a list of them: taking the
 permissions of one (bucket, prefix) out of a list, and merging new statements into it.
 Each method is proved against a function of the same list; what those functions mean is
 proved in the modules PolicyGrants and PolicyRuns.
*/
module Policy {
  import opened Wrappers
  import opened Wildcard
  import opened Resources
  import opened Conditions

  datatype BucketPolicy = NoPolicy | ReadOnly | WriteOnly | ReadWrite

  datatype Action =
    | GetBucketLocation | ListBucket | ListBucketMultipartUploads
    | GetObject
    | AbortMultipartUpload | DeleteObject | ListMultipartUploadParts | PutObject
    | OtherAction(name: string)

  datatype Effect = Allow | OtherEffect(effect: string)

  datatype User = User(aws: set<string>, canonicalUser: set<string>)

  datatype Statement = Statement(
    actions: set<Action>,
    conditions: Option<ConditionMap>,
    effect: Effect,
    principal: User,
    resources: set<string>,
    sid: string)

  const COMMON_BUCKET_ACTIONS := {GetBucketLocation}
  const READ_ONLY_BUCKET_ACTIONS := {ListBucket}
  const WRITE_ONLY_BUCKET_ACTIONS := {ListBucketMultipartUploads}
  const READ_ONLY_OBJECT_ACTIONS := {GetObject}
  const WRITE_ONLY_OBJECT_ACTIONS := {AbortMultipartUpload, DeleteObject, ListMultipartUploadParts, PutObject}
  const READ_WRITE_OBJECT_ACTIONS := READ_ONLY_OBJECT_ACTIONS + WRITE_ONLY_OBJECT_ACTIONS
  const VALID_ACTIONS := COMMON_BUCKET_ACTIONS + READ_ONLY_BUCKET_ACTIONS + WRITE_ONLY_BUCKET_ACTIONS
    + READ_ONLY_OBJECT_ACTIONS + WRITE_ONLY_OBJECT_ACTIONS

  // ----- new statements -----

  function AllowEveryone(actions: set<Action>, conditions: Option<ConditionMap>, resource: string): Statement {
    Statement(actions, conditions, Allow, User({"*"}, {}), {resource}, "")
  }

  function PrefixCondition(x: string): ConditionMap {
    map[StringEquals := map[S3Prefix := {x}]]
  }

  /** The condition is built by adding to empty maps. */
  method ListingCondition(x: string) returns (condMap: ConditionMap)
    ensures condMap == PrefixCondition(x)
  {
    var condKeyMap := AddValues(map[], S3Prefix, {x});
    assert condKeyMap == map[S3Prefix := {x}];
    condMap := AddConditions(map[], StringEquals, condKeyMap);
    assert condMap == map[StringEquals := condKeyMap];
  }

  function NewBucketStatement(p: BucketPolicy, b: string, x: string): seq<Statement> {
    if p == NoPolicy || b == "" then []
    else
      var br := BucketResource(b);
      [AllowEveryone(COMMON_BUCKET_ACTIONS, None, br)]
      + (if p == ReadOnly || p == ReadWrite
         then [AllowEveryone(READ_ONLY_BUCKET_ACTIONS, if x != "" then Some(PrefixCondition(x)) else None, br)]
         else [])
      + (if p == WriteOnly || p == ReadWrite
         then [AllowEveryone(WRITE_ONLY_BUCKET_ACTIONS, None, br)]
         else [])
  }

  /** The object actions that a policy stands for. */
  function ObjectActions(p: BucketPolicy): set<Action> {
    match p
    case NoPolicy => {}
    case ReadOnly => READ_ONLY_OBJECT_ACTIONS
    case WriteOnly => WRITE_ONLY_OBJECT_ACTIONS
    case ReadWrite => READ_WRITE_OBJECT_ACTIONS
  }

  function NewObjectStatement(p: BucketPolicy, b: string, x: string): seq<Statement> {
    if p == NoPolicy || b == "" then []
    else [AllowEveryone(ObjectActions(p), None, ObjectResource(b, x))]
  }

  function NewStatements(p: BucketPolicy, b: string, x: string): seq<Statement> {
    NewBucketStatement(p, b, x) + NewObjectStatement(p, b, x)
  }

  // ----- questions about one statement -----

  /** The statement names at least one resource below bucket b. */
  predicate HoldsObjectsOf(s: Statement, b: string) {
    exists r :: r in s.resources && ObjectResourcePrefix(b) <= r
  }

  predicate IsValidStatement(s: Statement, b: string) {
    && s.actions * VALID_ACTIONS != {}
    && s.effect == Allow
    && "*" in s.principal.aws
    && (BucketResource(b) in s.resources || HoldsObjectsOf(s, b))
  }

  /** The statement grants the object actions of another prefix of bucket b, and holds no
      grant of prefix x. */
  predicate UsedByOthers(s: Statement, b: string, x: string, actions: set<Action>) {
    && ObjectResource(b, x) !in s.resources
    && HoldsObjectsOf(s, b)
    && s.actions * actions == actions
  }

  predicate ListsBucket(s: Statement, b: string) {
    && BucketResource(b) in s.resources
    && ListBucket in s.actions
    && s.effect == Allow
    && "*" in s.principal.aws
  }

  /** The prefixes a ListBucket statement is conditioned on. */
  function PrefixValues(s: Statement): set<string> {
    match s.conditions
    case None => {}
    case Some(c) => if StringEquals in c && S3Prefix in c[StringEquals] then c[StringEquals][S3Prefix] else {}
  }

  /** Those prefixes as object resources of bucket b. */
  function PrefixResources(s: Statement, b: string): set<string> {
    set v | v in PrefixValues(s) :: BucketResource(b) + "/" + v + "*"
  }

  // ----- taking one (bucket, prefix) out of one statement -----

  function WithoutObject(s: Statement, r: string): Statement {
    if s.conditions != None then s
    else if |s.resources| > 1 then s.(resources := s.resources - {r})
    else s.(actions := s.actions - READ_ONLY_OBJECT_ACTIONS - WRITE_ONLY_OBJECT_ACTIONS)
  }

  /** A condition map without prefix x; None when nothing is left of it. */
  function WithoutPrefix(c: ConditionMap, x: string): Option<ConditionMap> {
    var c' :=
      if StringEquals !in c then c
      else
        var keys := c[StringEquals];
        var left := if S3Prefix in keys then keys[S3Prefix] - {x} else {};
        var keys' := if left == {} then keys - {S3Prefix} else keys[S3Prefix := left];
        if keys' == map[] then c - {StringEquals} else c[StringEquals := keys'];
    if c' == map[] then None else Some(c')
  }

  function WithoutListing(s: Statement, x: string): Statement {
    if ListBucket !in s.actions then s
    else match s.conditions
      case None => s.(actions := s.actions - READ_ONLY_BUCKET_ACTIONS)
      case Some(c) =>
        if x == "" then s
        else match WithoutPrefix(c, x)
          case None => s.(conditions := None, actions := s.actions - READ_ONLY_BUCKET_ACTIONS)
          case Some(c') => s.(conditions := Some(c'))
  }

  function WithoutUploads(s: Statement): Statement {
    if s.conditions == None then s.(actions := s.actions - WRITE_ONLY_BUCKET_ACTIONS) else s
  }

  function WithoutBucket(s: Statement, b: string, x: string, readInUse: bool, writeInUse: bool): Statement {
    if |s.resources| > 1 then s.(resources := s.resources - {BucketResource(b)})
    else
      var s1 := if readInUse then s else WithoutListing(s, x);
      if writeInUse then s1 else WithoutUploads(s1)
  }

  /** One statement without its permissions for (b, x). */
  function Stripped(s: Statement, b: string, x: string, readInUse: bool, writeInUse: bool): Statement {
    if BucketResource(b) in s.resources then
      if s.conditions != None then WithoutBucket(s, b, x, false, false)
      else WithoutBucket(s, b, x, readInUse, writeInUse)
    else if ObjectResource(b, x) in s.resources then WithoutObject(s, ObjectResource(b, x))
    else s
  }

  method RemoveObjectActions(s: Statement, objectResource: string) returns (r: Statement)
    ensures r == WithoutObject(s, objectResource)
  {
    r := s;
    if r.conditions == None {
      if |r.resources| > 1 {
        r := r.(resources := r.resources - {objectResource});
      } else {
        r := r.(actions := r.actions - READ_ONLY_OBJECT_ACTIONS);
        r := r.(actions := r.actions - WRITE_ONLY_OBJECT_ACTIONS);
      }
    }
  }

  method RemoveReadOnly(s: Statement, x: string) returns (r: Statement)
    ensures r == WithoutListing(s, x)
  {
    r := s;
    if !(r.actions * READ_ONLY_BUCKET_ACTIONS == READ_ONLY_BUCKET_ACTIONS) {
      return;
    }
    if r.conditions == None {
      r := r.(actions := r.actions - READ_ONLY_BUCKET_ACTIONS);
      return;
    }
    if x != "" {
      var left := RemovePrefixValue(r.conditions.value, x);
      if left == map[] {
        r := r.(conditions := None);
        r := r.(actions := r.actions - READ_ONLY_BUCKET_ACTIONS);
      } else {
        r := r.(conditions := Some(left));
      }
    }
  }

  /** Deletes x, then the emptied key, then the emptied operator. */
  method RemovePrefixValue(c: ConditionMap, x: string) returns (conditions: ConditionMap)
    ensures WithoutPrefix(c, x) == if conditions == map[] then None else Some(conditions)
  {
    conditions := c;
    if StringEquals in conditions {
      var stringEqualsValue := conditions[StringEquals];
      var values := {};
      if S3Prefix in stringEqualsValue {
        values := stringEqualsValue[S3Prefix] - {x};
        stringEqualsValue := stringEqualsValue[S3Prefix := values];
      }
      if values == {} {
        stringEqualsValue := stringEqualsValue - {S3Prefix};
        assert stringEqualsValue == c[StringEquals] - {S3Prefix};
      }
      conditions := conditions[StringEquals := stringEqualsValue];
      if stringEqualsValue == map[] {
        conditions := conditions - {StringEquals};
        assert conditions == c - {StringEquals};
      }
    }
  }

  method RemoveBucketActions(s: Statement, b: string, x: string, readInUse: bool, writeInUse: bool)
    returns (r: Statement)
    ensures r == WithoutBucket(s, b, x, readInUse, writeInUse)
  {
    r := s;
    if |r.resources| > 1 {
      r := r.(resources := r.resources - {BucketResource(b)});
    } else {
      if !readInUse {
        r := RemoveReadOnly(r, x);
      }
      if !writeInUse {
        if r.conditions == None {
          r := r.(actions := r.actions - WRITE_ONLY_BUCKET_ACTIONS);
        }
      }
    }
  }

  // ----- taking one (bucket, prefix) out of a list -----

  method GetInUsePolicy(statements: seq<Statement>, b: string, x: string)
    returns (readOnlyInUse: bool, writeOnlyInUse: bool)
    ensures readOnlyInUse == InUse(statements, b, x, READ_ONLY_OBJECT_ACTIONS)
    ensures writeOnlyInUse == InUse(statements, b, x, WRITE_ONLY_OBJECT_ACTIONS)
  {
    readOnlyInUse, writeOnlyInUse := false, false;
    var i := 0;
    while i < |statements|
      invariant 0 <= i <= |statements|
      invariant readOnlyInUse ==
        exists j :: 0 <= j < i && UsedByOthers(statements[j], b, x, READ_ONLY_OBJECT_ACTIONS)
      invariant writeOnlyInUse ==
        exists j :: 0 <= j < i && UsedByOthers(statements[j], b, x, WRITE_ONLY_OBJECT_ACTIONS)
    {
      var s := statements[i];
      if ObjectResource(b, x) !in s.resources && HoldsObjectsOf(s, b) {
        if s.actions * READ_ONLY_OBJECT_ACTIONS == READ_ONLY_OBJECT_ACTIONS {
          readOnlyInUse := true;
        }
        if s.actions * WRITE_ONLY_OBJECT_ACTIONS == WRITE_ONLY_OBJECT_ACTIONS {
          writeOnlyInUse := true;
        }
      }
      if readOnlyInUse && writeOnlyInUse {
        break;
      }
      i := i + 1;
    }
  }

  predicate InUse(statements: seq<Statement>, b: string, x: string, actions: set<Action>) {
    exists j :: 0 <= j < |statements| && UsedByOthers(statements[j], b, x, actions)
  }

  /** The first sweep: statements kept so far, ListBucket statements set aside, and the
      prefixes seen in conditions (as resources). */
  datatype Sweep = Sweep(out: seq<Statement>, aside: seq<Statement>, prefixes: set<string>)

  function SweepOne(w: Sweep, s: Statement, b: string, x: string, readInUse: bool, writeInUse: bool): Sweep {
    if !IsValidStatement(s, b) then w.(out := w.out + [s])
    else
      var s' := Stripped(s, b, x, readInUse, writeInUse);
      if s'.actions == {} then w
      else if !ListsBucket(s', b) then w.(out := w.out + [s'])
      else if s'.conditions != None then
        w.(out := w.out + [s'], prefixes := w.prefixes + PrefixResources(s', b))
      else if w.prefixes != {} then w.(aside := w.aside + [s'])
      else w.(out := w.out + [s'])
  }

  function SweepAll(ss: seq<Statement>, b: string, x: string, readInUse: bool, writeInUse: bool): Sweep {
    if ss == [] then Sweep([], [], {})
    else
      SweepOne(SweepAll(ss[..|ss| - 1], b, x, readInUse, writeInUse), ss[|ss| - 1],
               b, x, readInUse, writeInUse)
  }

  /** No kept statement holds objects of b outside the conditioned prefixes. */
  predicate SkipAside(w: Sweep, b: string) {
    forall i :: 0 <= i < |w.out| ==>
      !(HoldsObjectsOf(w.out[i], b) && w.prefixes * w.out[i].resources == {})
  }

  predicate SkippedAside(s: Statement, b: string) {
    && BucketResource(b) in s.resources
    && s.effect == Allow
    && "*" in s.principal.aws
    && s.conditions == None
  }

  function Kept(aside: seq<Statement>, b: string, skip: bool): seq<Statement> {
    if aside == [] then []
    else
      var last := aside[|aside| - 1];
      Kept(aside[..|aside| - 1], b, skip) + (if skip && SkippedAside(last, b) then [] else [last])
  }

  /** The only statement left is the plain bucket statement. */
  predicate OnlyCommon(out: seq<Statement>, b: string) {
    && |out| == 1
    && SkippedAside(out[0], b)
    && GetBucketLocation in out[0].actions
  }

  /** The list without its permissions for (b, x). */
  function Removed(ss: seq<Statement>, b: string, x: string): seq<Statement> {
    var readInUse := InUse(ss, b, x, READ_ONLY_OBJECT_ACTIONS);
    var writeInUse := InUse(ss, b, x, WRITE_ONLY_OBJECT_ACTIONS);
    var w := SweepAll(ss, b, x, readInUse, writeInUse);
    var out := w.out + Kept(w.aside, b, SkipAside(w, b));
    if OnlyCommon(out, b) then [] else out
  }

  /** The body of the first loop up to the changed statement. */
  method RemoveFromStatement(s: Statement, b: string, x: string, readInUse: bool, writeInUse: bool)
    returns (r: Statement)
    ensures r == Stripped(s, b, x, readInUse, writeInUse)
  {
    r := s;
    if BucketResource(b) in r.resources {
      if r.conditions != None {
        r := RemoveBucketActions(r, b, x, false, false);
      } else {
        r := RemoveBucketActions(r, b, x, readInUse, writeInUse);
      }
    } else if ObjectResource(b, x) in r.resources {
      r := RemoveObjectActions(r, ObjectResource(b, x));
    }
  }

  /** The first loop. */
  method SweepStatements(statements: seq<Statement>, b: string, x: string, readInUse: bool, writeInUse: bool)
    returns (out: seq<Statement>, readOnlyBucketStatements: seq<Statement>, s3PrefixValues: set<string>)
    ensures Sweep(out, readOnlyBucketStatements, s3PrefixValues)
         == SweepAll(statements, b, x, readInUse, writeInUse)
  {
    out, readOnlyBucketStatements, s3PrefixValues := [], [], {};
    var i := 0;
    while i < |statements|
      invariant 0 <= i <= |statements|
      invariant Sweep(out, readOnlyBucketStatements, s3PrefixValues)
             == SweepAll(statements[..i], b, x, readInUse, writeInUse)
    {
      assert statements[..i + 1][..i] == statements[..i];
      var statement := statements[i];
      i := i + 1;
      if !IsValidStatement(statement, b) {
        out := out + [statement];
        continue;
      }
      statement := RemoveFromStatement(statement, b, x, readInUse, writeInUse);
      if statement.actions != {} {
        if ListsBucket(statement, b) {
          if statement.conditions != None {
            s3PrefixValues := s3PrefixValues + PrefixResources(statement, b);
          } else if s3PrefixValues != {} {
            readOnlyBucketStatements := readOnlyBucketStatements + [statement];
            continue;
          }
        }
        out := out + [statement];
      }
    }
    assert statements[..i] == statements;
  }

  /** The second loop. */
  method CanSkipAside(out: seq<Statement>, ghost aside: seq<Statement>, b: string, s3PrefixValues: set<string>)
    returns (skip: bool)
    ensures skip == SkipAside(Sweep(out, aside, s3PrefixValues), b)
  {
    skip := true;
    var i := 0;
    while i < |out|
      invariant 0 <= i <= |out|
      invariant forall j :: 0 <= j < i ==>
        !(HoldsObjectsOf(out[j], b) && s3PrefixValues * out[j].resources == {})
    {
      if HoldsObjectsOf(out[i], b) && s3PrefixValues * out[i].resources == {} {
        return false;
      }
      i := i + 1;
    }
  }

  method RemoveStatements(statements: seq<Statement>, b: string, x: string) returns (out: seq<Statement>)
    ensures out == Removed(statements, b, x)
  {
    var readOnlyInUse, writeOnlyInUse := GetInUsePolicy(statements, b, x);
    var readOnlyBucketStatements, s3PrefixValues;
    out, readOnlyBucketStatements, s3PrefixValues :=
      SweepStatements(statements, b, x, readOnlyInUse, writeOnlyInUse);
    ghost var w := Sweep(out, readOnlyBucketStatements, s3PrefixValues);
    var skipBucketStatement := CanSkipAside(out, readOnlyBucketStatements, b, s3PrefixValues);

    var i := 0;
    while i < |readOnlyBucketStatements|
      invariant 0 <= i <= |readOnlyBucketStatements|
      invariant out == w.out + Kept(w.aside[..i], b, skipBucketStatement)
    {
      assert w.aside[..i + 1][..i] == w.aside[..i];
      var statement := readOnlyBucketStatements[i];
      i := i + 1;
      if skipBucketStatement && SkippedAside(statement, b) {
        continue;
      }
      out := out + [statement];
    }
    assert w.aside[..i] == w.aside;

    if OnlyCommon(out, b) {
      out := [];
    }
  }

  // ----- merging one statement into a list -----

  /** What statement s becomes when t is merged into it, if t can be. */
  function MergedInto(s: Statement, t: Statement): Option<Statement> {
    if s.effect != t.effect then None
    else if s.principal.aws == t.principal.aws && s.conditions == t.conditions && s.actions == t.actions then
      Some(s.(resources := s.resources + t.resources))
    else if s.principal.aws == t.principal.aws && s.conditions == t.conditions && s.resources == t.resources then
      Some(s.(actions := s.actions + t.actions))
    else if && s.resources * t.resources == t.resources
            && s.actions * t.actions == t.actions
            && s.principal.aws * t.principal.aws == t.principal.aws then
      if s.conditions == t.conditions then Some(s)
      else if s.conditions != None && t.conditions != None && s.resources == t.resources then
        Some(s.(conditions := Some(MergedMap(s.conditions.value, t.conditions.value))))
      else None
    else None
  }

  /** The list with t merged into the first statement that takes it, or added at the end. */
  function Appended(ss: seq<Statement>, t: Statement): seq<Statement> {
    if ss == [] then (if t.actions == {} && t.resources == {} then [] else [t])
    else match MergedInto(ss[0], t)
      case Some(m) => [m] + ss[1..]
      case None => [ss[0]] + Appended(ss[1..], t)
  }

  function AppendedAll(ss: seq<Statement>, ts: seq<Statement>): seq<Statement>
    decreases |ts|
  {
    if ts == [] then ss else AppendedAll(Appended(ss, ts[0]), ts[1..])
  }

  /** The body of the loop over the list: s after taking t in, if it does. */
  method MergeStatement(s: Statement, t: Statement) returns (m: Option<Statement>)
    ensures m == MergedInto(s, t)
  {
    if && s.actions == t.actions
       && s.effect == t.effect
       && s.principal.aws == t.principal.aws
       && s.conditions == t.conditions
    {
      return Some(s.(resources := s.resources + t.resources));
    } else if && s.resources == t.resources
              && s.effect == t.effect
              && s.principal.aws == t.principal.aws
              && s.conditions == t.conditions
    {
      return Some(s.(actions := s.actions + t.actions));
    }
    if && s.resources * t.resources == t.resources
       && s.actions * t.actions == t.actions
       && s.effect == t.effect
       && s.principal.aws * t.principal.aws == t.principal.aws
    {
      if s.conditions == t.conditions {
        return Some(s);
      }
      if s.conditions != None && t.conditions != None {
        if s.resources == t.resources {
          var merged := MergeConditionMap(s.conditions.value, t.conditions.value);
          return Some(s.(conditions := Some(merged)));
        }
      }
    }
    return None;
  }

  lemma {:induction false} AppendedAtTaker(ss: seq<Statement>, t: Statement, i: nat)
    requires i < |ss| && MergedInto(ss[i], t) != None
    requires forall j :: 0 <= j < i ==> MergedInto(ss[j], t) == None
    ensures Appended(ss, t) == ss[i := MergedInto(ss[i], t).value]
  {
    if i > 0 {
      AppendedAtTaker(ss[1..], t, i - 1);
    }
  }

  lemma {:induction false} AppendedAtEnd(ss: seq<Statement>, t: Statement)
    requires forall j :: 0 <= j < |ss| ==> MergedInto(ss[j], t) == None
    ensures Appended(ss, t) == if t.actions == {} && t.resources == {} then ss else ss + [t]
  {
    if ss != [] {
      AppendedAtEnd(ss[1..], t);
      assert ss == [ss[0]] + ss[1..];
    }
  }

  method AppendStatement(statements: seq<Statement>, t: Statement) returns (r: seq<Statement>)
    ensures r == Appended(statements, t)
  {
    var i := 0;
    while i < |statements|
      invariant 0 <= i <= |statements|
      invariant forall j :: 0 <= j < i ==> MergedInto(statements[j], t) == None
    {
      var merged := MergeStatement(statements[i], t);
      if merged != None {
        AppendedAtTaker(statements, t, i);
        return statements[i := merged.value];
      }
      i := i + 1;
    }
    AppendedAtEnd(statements, t);
    r := statements;
    if !(t.actions == {} && t.resources == {}) {
      r := r + [t];
    }
  }

  method AppendStatements(statements: seq<Statement>, ts: seq<Statement>) returns (r: seq<Statement>)
    ensures r == AppendedAll(statements, ts)
  {
    r := statements;
    var i := 0;
    while i < |ts|
      invariant 0 <= i <= |ts|
      invariant AppendedAll(statements, ts) == AppendedAll(r, ts[i..])
    {
      assert ts[i..][1..] == ts[i + 1..];
      r := AppendStatement(r, ts[i]);
      i := i + 1;
    }
  }

  // ----- setting a policy -----

  function WithPolicy(ss: seq<Statement>, p: BucketPolicy, b: string, x: string): seq<Statement> {
    AppendedAll(Removed(ss, b, x), NewStatements(p, b, x))
  }

  method SetPolicy(statements: seq<Statement>, p: BucketPolicy, b: string, x: string) returns (rv: seq<Statement>)
    ensures rv == WithPolicy(statements, p, b, x)
  {
    var out := RemoveStatements(statements, b, x);
    var ns := NewStatements(p, b, x);
    rv := AppendStatements(out, ns);
  }
}
