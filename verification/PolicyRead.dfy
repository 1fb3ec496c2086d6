/**
 Reading a policy back from a statement list. `GetPolicy` is the library's single scan with
 its running longest match; `PolicyRule` says, without any order, what it returns for every
 list of statements.
*/
module PolicyRead {
  import opened Wrappers
  import opened Wildcard
  import opened Resources
  import opened Conditions
  import opened Policy

  datatype BucketFlags = BucketFlags(common: bool, readOnly: bool, writeOnly: bool)

  datatype ObjectFlags = ObjectFlags(readOnly: bool, writeOnly: bool)

  /** Whether a conditioned ListBucket statement lists prefix x. */
  predicate ConditionAdmits(c: ConditionMap, x: string) {
    if StringEquals in c then Lists(c, StringEquals, S3Prefix, x)
    else && StringNotEquals in c
         && S3Prefix in c[StringNotEquals]
         && x !in c[StringNotEquals][S3Prefix]
  }

  function GetBucketPolicy(s: Statement, x: string): BucketFlags {
    if !(s.effect == Allow && "*" in s.principal.aws) then BucketFlags(false, false, false)
    else
      BucketFlags(
        COMMON_BUCKET_ACTIONS <= s.actions && s.conditions == None,
        READ_ONLY_BUCKET_ACTIONS <= s.actions
          && (match s.conditions case None => true case Some(c) => x != "" && ConditionAdmits(c, x)),
        WRITE_ONLY_BUCKET_ACTIONS <= s.actions && s.conditions == None)
  }

  function GetObjectPolicy(s: Statement): ObjectFlags {
    if s.effect == Allow && "*" in s.principal.aws && s.conditions == None then
      ObjectFlags(READ_ONLY_OBJECT_ACTIONS <= s.actions, WRITE_ONLY_OBJECT_ACTIONS <= s.actions)
    else ObjectFlags(false, false)
  }

  /** The resources of s that speak for the objects named by target. */
  function MatchedResources(s: Statement, target: string): set<string> {
    if target in s.resources then {target} else set r | r in s.resources && Matches(r, target)
  }

  // ----- the rule -----

  ghost predicate Owns(s: Statement, target: string, n: int) {
    exists r :: r in MatchedResources(s, target) && |r| == n
  }

  /** No statement has a matching resource longer than n. */
  ghost predicate Bounds(ss: seq<Statement>, target: string, n: int) {
    forall i, r :: 0 <= i < |ss| && r in MatchedResources(ss[i], target) ==> |r| <= n
  }

  ghost predicate OwnsLongest(ss: seq<Statement>, s: Statement, target: string) {
    exists n :: Owns(s, target, n) && Bounds(ss, target, n)
  }

  /** Some statement that owns a matching resource of maximal length lets objects be read. */
  ghost predicate ObjectReadOnly(ss: seq<Statement>, target: string) {
    exists i :: 0 <= i < |ss| && OwnsLongest(ss, ss[i], target) && GetObjectPolicy(ss[i]).readOnly
  }

  ghost predicate ObjectWriteOnly(ss: seq<Statement>, target: string) {
    exists i :: 0 <= i < |ss| && OwnsLongest(ss, ss[i], target) && GetObjectPolicy(ss[i]).writeOnly
  }

  ghost predicate BucketCommon(ss: seq<Statement>, b: string, x: string) {
    exists i :: 0 <= i < |ss| && BucketResource(b) in ss[i].resources && GetBucketPolicy(ss[i], x).common
  }

  ghost predicate BucketReadOnly(ss: seq<Statement>, b: string, x: string) {
    exists i :: 0 <= i < |ss| && BucketResource(b) in ss[i].resources && GetBucketPolicy(ss[i], x).readOnly
  }

  ghost predicate BucketWriteOnly(ss: seq<Statement>, b: string, x: string) {
    exists i :: 0 <= i < |ss| && BucketResource(b) in ss[i].resources && GetBucketPolicy(ss[i], x).writeOnly
  }

  function Combined(common: bool, bucketRead: bool, bucketWrite: bool, objectRead: bool, objectWrite: bool): BucketPolicy {
    if !common then NoPolicy
    else if bucketRead && bucketWrite && objectRead && objectWrite then ReadWrite
    else if bucketRead && objectRead then ReadOnly
    else if bucketWrite && objectWrite then WriteOnly
    else NoPolicy
  }

  ghost function PolicyRule(ss: seq<Statement>, b: string, x: string): BucketPolicy {
    var target := ObjectResource(b, x);
    Combined(BucketCommon(ss, b, x), BucketReadOnly(ss, b, x), BucketWriteOnly(ss, b, x),
             ObjectReadOnly(ss, target), ObjectWriteOnly(ss, target))
  }

  /** The rule does not look at the order of statements, nor at how often one occurs. */
  lemma RuleIgnoresOrder(ss: seq<Statement>, ss': seq<Statement>, b: string, x: string)
    requires forall s :: s in ss <==> s in ss'
    ensures PolicyRule(ss, b, x) == PolicyRule(ss', b, x)
  {
    var target := ObjectResource(b, x);
    RuleMonotone(ss, ss', b, x);
    RuleMonotone(ss', ss, b, x);
  }

  lemma RuleMonotone(ss: seq<Statement>, ss': seq<Statement>, b: string, x: string)
    requires forall s :: s in ss <==> s in ss'
    ensures BucketCommon(ss, b, x) ==> BucketCommon(ss', b, x)
    ensures BucketReadOnly(ss, b, x) ==> BucketReadOnly(ss', b, x)
    ensures BucketWriteOnly(ss, b, x) ==> BucketWriteOnly(ss', b, x)
    ensures ObjectReadOnly(ss, ObjectResource(b, x)) ==> ObjectReadOnly(ss', ObjectResource(b, x))
    ensures ObjectWriteOnly(ss, ObjectResource(b, x)) ==> ObjectWriteOnly(ss', ObjectResource(b, x))
  {
    var target := ObjectResource(b, x);
    assert forall i :: 0 <= i < |ss| ==> ss[i] in ss';
    forall n ensures Bounds(ss, target, n) ==> Bounds(ss', target, n) {
      assert forall i :: 0 <= i < |ss'| ==> ss'[i] in ss;
    }
  }

  // ----- the scan -----

  /** The set of r's resources that match, found by the library's matcher. */
  method FuncMatch(resources: set<string>, target: string) returns (matched: set<string>)
    ensures matched == set r | r in resources && Matches(r, target)
  {
    matched := {};
    var left := resources;
    while left != {}
      invariant left <= resources
      invariant matched == set r | r in resources - left && Matches(r, target)
      decreases left
    {
      var r :| r in left;
      var m := ResourceMatch(r, target);
      if m {
        matched := matched + {r};
      }
      left := left - {r};
    }
  }

  /** What the scan knows after some statements: the longest match and the flags of its owners. */
  ghost predicate Scanned(ss: seq<Statement>, target: string, n: nat, flags: ObjectFlags) {
    && Bounds(ss, target, n)
    && (n == 0 || exists i :: 0 <= i < |ss| && Owns(ss[i], target, n))
    && (flags.readOnly <==> exists i :: 0 <= i < |ss| && Owns(ss[i], target, n) && GetObjectPolicy(ss[i]).readOnly)
    && (flags.writeOnly <==> exists i :: 0 <= i < |ss| && Owns(ss[i], target, n) && GetObjectPolicy(ss[i]).writeOnly)
  }

  function Or(f: ObjectFlags, g: ObjectFlags): ObjectFlags {
    ObjectFlags(f.readOnly || g.readOnly, f.writeOnly || g.writeOnly)
  }

  ghost predicate HasLength(rs: set<string>, n: int) {
    exists r :: r in rs && |r| == n
  }

  /** The inner loop: one statement's matching resources, in any order. */
  method ScanMatches(matched: set<string>, cur: ObjectFlags, longest: string, flags: ObjectFlags)
    returns (longest': string, flags': ObjectFlags)
    ensures |longest| <= |longest'|
    ensures forall r :: r in matched ==> |r| <= |longest'|
    ensures |longest'| > |longest| ==> HasLength(matched, |longest'|) && flags' == cur
    ensures |longest'| == |longest| ==> flags' == if HasLength(matched, |longest|) then Or(flags, cur) else flags
  {
    longest', flags' := longest, flags;
    var left := matched;
    while left != {}
      invariant left <= matched
      invariant |longest| <= |longest'|
      invariant forall r :: r in matched - left ==> |r| <= |longest'|
      invariant |longest'| > |longest| ==> HasLength(matched - left, |longest'|) && flags' == cur
      invariant |longest'| == |longest| ==>
        flags' == if HasLength(matched - left, |longest|) then Or(flags, cur) else flags
      decreases left
    {
      var resource :| resource in left;
      ghost var before := matched - left;
      left := left - {resource};
      assert matched - left == before + {resource};
      if |longest'| < |resource| {
        flags' := cur;
        longest' := resource;
      } else if |longest'| == |resource| {
        flags' := Or(flags', cur);
        longest' := resource;
      }
      assert forall n :: HasLength(matched - left, n) <==> HasLength(before, n) || |resource| == n;
    }
    assert matched - left == matched;
  }

  lemma ScanStep(ss: seq<Statement>, s: Statement, target: string,
                 n: nat, flags: ObjectFlags, n': nat, flags': ObjectFlags)
    requires target != "" && Scanned(ss, target, n, flags)
    requires n <= n'
    requires forall r :: r in MatchedResources(s, target) ==> |r| <= n'
    requires n' > n ==> Owns(s, target, n') && flags' == GetObjectPolicy(s)
    requires n' == n ==> flags' == if Owns(s, target, n) then Or(flags, GetObjectPolicy(s)) else flags
    ensures Scanned(ss + [s], target, n', flags')
  {
    var ss' := ss + [s];
    assert ss'[|ss|] == s;
    assert forall i :: 0 <= i < |ss| ==> ss'[i] == ss[i];
    if n' > n {
      assert forall i :: 0 <= i < |ss| ==> !Owns(ss[i], target, n');
    } else {
      assert forall i :: 0 <= i < |ss'| ==> (i < |ss| || ss'[i] == s);
      if i :| 0 <= i < |ss| && Owns(ss[i], target, n) {
        assert Owns(ss'[i], target, n);
      }
      if i :| 0 <= i < |ss| && Owns(ss[i], target, n) && GetObjectPolicy(ss[i]).readOnly {
        assert GetObjectPolicy(ss'[i]).readOnly;
      }
      if i :| 0 <= i < |ss| && Owns(ss[i], target, n) && GetObjectPolicy(ss[i]).writeOnly {
        assert GetObjectPolicy(ss'[i]).writeOnly;
      }
    }
  }

  lemma ScanDecides(ss: seq<Statement>, target: string, n: nat, flags: ObjectFlags)
    requires target != "" && Scanned(ss, target, n, flags)
    ensures flags == ObjectFlags(ObjectReadOnly(ss, target), ObjectWriteOnly(ss, target))
  {
    forall i | 0 <= i < |ss| ensures OwnsLongest(ss, ss[i], target) <==> Owns(ss[i], target, n) {
      if OwnsLongest(ss, ss[i], target) {
        var m :| Owns(ss[i], target, m) && Bounds(ss, target, m);
        assert m <= n;
        if n != 0 {
          var j :| 0 <= j < |ss| && Owns(ss[j], target, n);
          assert n <= m;
        }
      }
    }
  }

  /** The object half of the loop body. */
  method ScanObjects(ghost ss: seq<Statement>, s: Statement, target: string, longest: string, flags: ObjectFlags)
    returns (longest': string, flags': ObjectFlags)
    requires target != "" && Scanned(ss, target, |longest|, flags)
    ensures Scanned(ss + [s], target, |longest'|, flags')
  {
    var matchedObjResources;
    if target in s.resources {
      matchedObjResources := {target};
    } else {
      matchedObjResources := FuncMatch(s.resources, target);
    }
    longest', flags' := ScanMatches(matchedObjResources, GetObjectPolicy(s), longest, flags);
    assert forall n :: Owns(s, target, n) <==> HasLength(matchedObjResources, n);
    ScanStep(ss, s, target, |longest|, flags, |longest'|, flags');
  }

  /** The bucket half of the loop body. */
  method ScanBucket(ghost ss: seq<Statement>, s: Statement, b: string, x: string, flags: BucketFlags)
    returns (flags': BucketFlags)
    requires BucketScanned(ss, b, x, flags)
    ensures BucketScanned(ss + [s], b, x, flags')
  {
    flags' := flags;
    BucketScanStep(ss, s, b, x, flags);
    if BucketResource(b) in s.resources {
      var found := GetBucketPolicy(s, x);
      flags' := BucketFlags(flags.common || found.common,
                            flags.readOnly || found.readOnly,
                            flags.writeOnly || found.writeOnly);
    }
  }

  /** The loop's variables. */
  datatype ScanState = ScanState(matchedResource: string, objects: ObjectFlags, buckets: BucketFlags)

  ghost predicate Seen(ss: seq<Statement>, target: string, b: string, x: string, st: ScanState) {
    && Scanned(ss, target, |st.matchedResource|, st.objects)
    && BucketScanned(ss, b, x, st.buckets)
  }

  /** The loop body. */
  method ScanStatement(ghost ss: seq<Statement>, s: Statement, target: string, b: string, x: string, st: ScanState)
    returns (st': ScanState)
    requires target != "" && Seen(ss, target, b, x, st)
    ensures Seen(ss + [s], target, b, x, st')
  {
    var matchedResource, objects := ScanObjects(ss, s, target, st.matchedResource, st.objects);
    var buckets := ScanBucket(ss, s, b, x, st.buckets);
    st' := ScanState(matchedResource, objects, buckets);
  }

  lemma SeenNothing(target: string, b: string, x: string, st: ScanState)
    requires st == ScanState("", ObjectFlags(false, false), BucketFlags(false, false, false))
    ensures Seen([], target, b, x, st)
  {
  }

  lemma SeenAll(ss: seq<Statement>, target: string, b: string, x: string, st: ScanState)
    requires target != "" && Seen(ss, target, b, x, st)
    ensures st.objects == ObjectFlags(ObjectReadOnly(ss, target), ObjectWriteOnly(ss, target))
    ensures BucketScanned(ss, b, x, st.buckets)
  {
    ScanDecides(ss, target, |st.matchedResource|, st.objects);
  }

  /** The scan over the statements. */
  method Scan(statements: seq<Statement>, target: string, b: string, x: string) returns (st: ScanState)
    requires target != ""
    ensures st.objects == ObjectFlags(ObjectReadOnly(statements, target), ObjectWriteOnly(statements, target))
    ensures BucketScanned(statements, b, x, st.buckets)
  {
    st := ScanState("", ObjectFlags(false, false), BucketFlags(false, false, false));
    ghost var seen := [];
    SeenNothing(target, b, x, st);
    var i := 0;
    while i < |statements|
      invariant 0 <= i <= |statements| && seen == statements[..i]
      invariant Seen(seen, target, b, x, st)
    {
      st := ScanStatement(seen, statements[i], target, b, x, st);
      seen := seen + [statements[i]];
      i := i + 1;
    }
    assert seen == statements;
    SeenAll(statements, target, b, x, st);
  }

  /** The library's scan returns what the rule says, for every list of statements. */
  method GetPolicy(statements: seq<Statement>, b: string, x: string) returns (policy: BucketPolicy)
    ensures policy == PolicyRule(statements, b, x)
  {
    var target := ObjectResource(b, x);
    var st := Scan(statements, target, b, x);
    policy := Combined(st.buckets.common, st.buckets.readOnly, st.buckets.writeOnly,
                       st.objects.readOnly, st.objects.writeOnly);
  }

  ghost predicate BucketScanned(ss: seq<Statement>, b: string, x: string, f: BucketFlags) {
    f == BucketFlags(BucketCommon(ss, b, x), BucketReadOnly(ss, b, x), BucketWriteOnly(ss, b, x))
  }

  lemma BucketScanStep(ss: seq<Statement>, s: Statement, b: string, x: string, f: BucketFlags)
    requires BucketScanned(ss, b, x, f)
    ensures BucketScanned(ss + [s], b, x,
              if BucketResource(b) in s.resources then
                var g := GetBucketPolicy(s, x);
                BucketFlags(f.common || g.common, f.readOnly || g.readOnly, f.writeOnly || g.writeOnly)
              else f)
  {
    var ss' := ss + [s];
    assert ss'[|ss|] == s;
    assert forall i :: 0 <= i < |ss| ==> ss'[i] == ss[i];
    assert forall i :: 0 <= i < |ss'| ==> (if i < |ss| then ss'[i] == ss[i] else ss'[i] == s);
  }
}
