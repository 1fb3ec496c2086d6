/**
 Whole runs of SetPolicy from the empty list. The list refines a plain map from
 (bucket, prefix) to policy; reading back is longest-prefix lookup in that map, limited by
 what the bucket statements still say.
*/
module PolicyRuns {
  import opened Wrappers
  import opened Wildcard
  import opened Resources
  import opened Conditions
  import opened Policy
  import opened PolicyGrants
  import opened PolicyBuckets
  import opened PolicyRead

  datatype Op = Op(policy: BucketPolicy, bucket: string, prefix: string)

  predicate ValidOp(op: Op) {
    ValidBucket(op.bucket) && ValidPrefix(op.prefix)
  }

  predicate ValidRun(ops: seq<Op>) {
    forall i :: 0 <= i < |ops| ==> ValidOp(ops[i])
  }

  /** The list after a run. */
  function Run(ops: seq<Op>): seq<Statement> {
    if ops == [] then []
    else
      var last := ops[|ops| - 1];
      WithPolicy(Run(ops[..|ops| - 1]), last.policy, last.bucket, last.prefix)
  }

  /** The map after a run. */
  function PolicyMap(ops: seq<Op>): map<(string, string), BucketPolicy> {
    if ops == [] then map[]
    else
      var last := ops[|ops| - 1];
      PolicyMap(ops[..|ops| - 1])[(last.bucket, last.prefix) := last.policy]
  }

  function Lookup(m: map<(string, string), BucketPolicy>, b: string, x: string): BucketPolicy {
    if (b, x) in m then m[(b, x)] else NoPolicy
  }

  // ----- the list refines the map -----

  lemma {:induction false} RunIsWellFormed(ops: seq<Op>)
    requires ValidRun(ops)
    ensures AllWellFormed(Run(ops))
  {
    if ops != [] {
      var last := ops[|ops| - 1];
      RunIsWellFormed(ops[..|ops| - 1]);
      ObjectResourceShape(last.bucket, last.prefix);
      BucketResourceShape(last.bucket);
      WithPolicyGrants(Run(ops[..|ops| - 1]), last.policy, last.bucket, last.prefix,
                       ObjectResource(last.bucket, last.prefix), GetObject, Always);
    }
  }

  /** After any run, what everyone may do with the objects of a prefix is what the last
      policy set for that very prefix says, and nothing when none was set. */
  lemma {:induction false} RunRefinesMap(ops: seq<Op>, b: string, x: string, a: Action, scope: Scope)
    requires ValidRun(ops) && ValidBucket(b) && ValidPrefix(x)
    ensures Granted(Run(ops), ObjectResource(b, x), a, scope)
       <==> scope == Always && a in ObjectActions(Lookup(PolicyMap(ops), b, x))
  {
    if ops != [] {
      var init, last := ops[..|ops| - 1], ops[|ops| - 1];
      RunRefinesMap(init, b, x, a, scope);
      RunIsWellFormed(init);
      StepRefinesMap(Run(init), last, b, x, a, scope);
    }
  }

  lemma StepRefinesMap(ss: seq<Statement>, op: Op, b: string, x: string, a: Action, scope: Scope)
    requires AllWellFormed(ss) && ValidOp(op) && ValidBucket(b) && ValidPrefix(x)
    ensures Granted(WithPolicy(ss, op.policy, op.bucket, op.prefix), ObjectResource(b, x), a, scope)
       <==> if (b, x) == (op.bucket, op.prefix) then scope == Always && a in ObjectActions(op.policy)
            else Granted(ss, ObjectResource(b, x), a, scope)
  {
    ObjectResourceShape(b, x);
    BucketResourceShape(op.bucket);
    WithPolicyGrants(ss, op.policy, op.bucket, op.prefix, ObjectResource(b, x), a, scope);
    if ObjectResource(b, x) == ObjectResource(op.bucket, op.prefix) {
      ObjectResourceInjective(b, x, op.bucket, op.prefix);
    }
  }

  // ----- reading back -----

  /** The longest prefix of x that has a policy in the map, or -1. */
  function LongestSet(m: map<(string, string), BucketPolicy>, b: string, x: string): (k: int)
    ensures -1 <= k <= |x|
  {
    if Lookup(m, b, x) != NoPolicy then |x|
    else if x == "" then -1
    else LongestSet(m, b, x[..|x| - 1])
  }

  /** The policy of the longest prefix of x that has one. */
  function Access(m: map<(string, string), BucketPolicy>, b: string, x: string): BucketPolicy {
    var k := LongestSet(m, b, x);
    if k < 0 then NoPolicy else Lookup(m, b, x[..k])
  }

  lemma {:induction false} LongestSetIsLongest(m: map<(string, string), BucketPolicy>, b: string, x: string)
    ensures var k := LongestSet(m, b, x);
            && (k >= 0 ==> Lookup(m, b, x[..k]) != NoPolicy)
            && (forall j :: k < j <= |x| ==> Lookup(m, b, x[..j]) == NoPolicy)
  {
    assert x[..|x|] == x;
    if Lookup(m, b, x) == NoPolicy && x != "" {
      var y := x[..|x| - 1];
      LongestSetIsLongest(m, b, y);
      assert forall j :: 0 <= j <= |y| ==> y[..j] == x[..j];
    }
  }

  lemma BucketResourceNeverMatches(r: string, b: string, x: string)
    requires ValidBucket(b) && ValidPrefix(x) && Matches(r, ObjectResource(b, x))
    ensures !IsBucketResource(r)
  {
    ObjectResourceShape(b, x);
  }

  /** A well-formed statement speaks for b/x exactly through the prefix resources it names. */
  lemma MatchedInWellFormed(s: Statement, b: string, x: string, r: string)
    requires WellFormed(s) && ValidBucket(b) && ValidPrefix(x)
    requires r in MatchedResources(s, ObjectResource(b, x))
    ensures r in s.resources && IsPrefixResource(r, b, x)
  {
    ObjectResourceShape(b, x);
    if r == ObjectResource(b, x) {
      assert x[..|x|] == x;
    } else {
      BucketResourceNeverMatches(r, b, x);
      MatchingResources(r, b, x);
    }
  }

  lemma HeldIsMatched(s: Statement, b: string, x: string, k: nat)
    requires WellFormed(s) && ValidBucket(b) && ValidPrefix(x) && k <= |x|
    requires ObjectResource(b, x[..k]) in s.resources
    requires k == |x| || ObjectResource(b, x) !in s.resources
    ensures ObjectResource(b, x[..k]) in MatchedResources(s, ObjectResource(b, x))
  {
    assert x[..|x|] == x;
    assert forall i :: 0 <= i < k ==> x[..k][i] == x[i];
    ObjectResourceShape(b, x[..k]);
    MatchingResources(ObjectResource(b, x[..k]), b, x);
  }

  /** A prefix resource named in the list has a policy in the map. */
  lemma HeldIsSet(ops: seq<Op>, i: nat, b: string, x: string)
    requires ValidRun(ops) && ValidBucket(b) && ValidPrefix(x)
    requires i < |Run(ops)| && ObjectResource(b, x) in Run(ops)[i].resources
    ensures Lookup(PolicyMap(ops), b, x) != NoPolicy
    ensures ObjectStatement(Run(ops)[i]) && Run(ops)[i].actions <= ObjectActions(Lookup(PolicyMap(ops), b, x))
  {
    RunIsWellFormed(ops);
    ObjectResourceShape(b, x);
    var s := Run(ops)[i];
    forall a | a in s.actions ensures a in ObjectActions(Lookup(PolicyMap(ops), b, x)) {
      assert GrantedBy(s, ObjectResource(b, x), a, Always);
      RunRefinesMap(ops, b, x, a, Always);
    }
    var a :| a in s.actions;
  }

  /** Matching resources in a run are never longer than the longest set prefix. */
  lemma RunBounds(ops: seq<Op>, b: string, x: string)
    requires ValidRun(ops) && ValidBucket(b) && ValidPrefix(x)
    ensures var k := LongestSet(PolicyMap(ops), b, x);
            forall i, r :: 0 <= i < |Run(ops)| && r in MatchedResources(Run(ops)[i], ObjectResource(b, x)) ==>
              exists j :: 0 <= j <= k && r == ObjectResource(b, x[..j]) && r in Run(ops)[i].resources
  {
    RunIsWellFormed(ops);
    var m := PolicyMap(ops);
    LongestSetIsLongest(m, b, x);
    forall i, r | 0 <= i < |Run(ops)| && r in MatchedResources(Run(ops)[i], ObjectResource(b, x))
      ensures exists j :: 0 <= j <= LongestSet(m, b, x) && r == ObjectResource(b, x[..j]) && r in Run(ops)[i].resources
    {
      MatchedInWellFormed(Run(ops)[i], b, x, r);
      var j :| 0 <= j <= |x| && r == ObjectResource(b, x[..j]);
      assert forall i :: 0 <= i < j ==> x[..j][i] == x[i];
      HeldIsSet(ops, i, b, x[..j]);
    }
  }

  /** The longest set prefix bounds every match, and its holders match with it. */
  lemma LongestIsTop(ops: seq<Op>, b: string, x: string, k: nat)
    requires ValidRun(ops) && ValidBucket(b) && ValidPrefix(x)
    requires k == LongestSet(PolicyMap(ops), b, x)
    ensures Bounds(Run(ops), ObjectResource(b, x), |ObjectResource(b, x[..k])|)
    ensures forall i :: 0 <= i < |Run(ops)| && ObjectResource(b, x[..k]) in Run(ops)[i].resources ==>
              ObjectResource(b, x[..k]) in MatchedResources(Run(ops)[i], ObjectResource(b, x))
  {
    RunBounds(ops, b, x);
    RunIsWellFormed(ops);
    LongestSetIsLongest(PolicyMap(ops), b, x);
    forall i | 0 <= i < |Run(ops)| && ObjectResource(b, x[..k]) in Run(ops)[i].resources
      ensures ObjectResource(b, x[..k]) in MatchedResources(Run(ops)[i], ObjectResource(b, x))
    {
      if ObjectResource(b, x) in Run(ops)[i].resources {
        HeldIsSet(ops, i, b, x);
        assert x[..|x|] == x;
      }
      HeldIsMatched(Run(ops)[i], b, x, k);
    }
  }

  /** A match as long as the longest set prefix's resource is that resource. */
  lemma LengthTellsTop(ops: seq<Op>, b: string, x: string, k: nat, i: nat, r: string)
    requires ValidRun(ops) && ValidBucket(b) && ValidPrefix(x)
    requires k == LongestSet(PolicyMap(ops), b, x) && i < |Run(ops)|
    requires r in MatchedResources(Run(ops)[i], ObjectResource(b, x))
    requires |r| == |ObjectResource(b, x[..k])|
    ensures r == ObjectResource(b, x[..k]) && r in Run(ops)[i].resources
  {
    RunBounds(ops, b, x);
    var j :| 0 <= j <= k && r == ObjectResource(b, x[..j]) && r in Run(ops)[i].resources;
    assert |x[..j]| == |x[..k]|;
  }

  lemma OwnersHoldTop(ss: seq<Statement>, target: string, top: string, i: nat)
    requires i < |ss| && Bounds(ss, target, |top|)
    requires exists h :: 0 <= h < |ss| && top in ss[h].resources
    requires forall h :: 0 <= h < |ss| && top in ss[h].resources ==> top in MatchedResources(ss[h], target)
    requires forall r :: r in MatchedResources(ss[i], target) && |r| == |top| ==> top in ss[i].resources
    ensures OwnsLongest(ss, ss[i], target) <==> top in ss[i].resources
  {
    if OwnsLongest(ss, ss[i], target) {
      var n :| Owns(ss[i], target, n) && Bounds(ss, target, n);
      var h :| 0 <= h < |ss| && top in ss[h].resources;
      assert n == |top|;
    }
    if top in ss[i].resources {
      assert Owns(ss[i], target, |top|);
    }
  }

  lemma LongestOwners(ops: seq<Op>, b: string, x: string, k: nat, i: nat)
    requires ValidRun(ops) && ValidBucket(b) && ValidPrefix(x)
    requires k == LongestSet(PolicyMap(ops), b, x) && i < |Run(ops)|
    requires exists h :: 0 <= h < |Run(ops)| && ObjectResource(b, x[..k]) in Run(ops)[h].resources
    ensures OwnsLongest(Run(ops), Run(ops)[i], ObjectResource(b, x))
       <==> ObjectResource(b, x[..k]) in Run(ops)[i].resources
  {
    LongestIsTop(ops, b, x, k);
    var top := ObjectResource(b, x[..k]);
    forall r | r in MatchedResources(Run(ops)[i], ObjectResource(b, x)) && |r| == |top|
      ensures top in Run(ops)[i].resources
    {
      LengthTellsTop(ops, b, x, k, i, r);
    }
    OwnersHoldTop(Run(ops), ObjectResource(b, x), top, i);
  }

  lemma SomeoneHolds(ops: seq<Op>, b: string, x: string)
    requires ValidRun(ops) && ValidBucket(b) && ValidPrefix(x)
    requires Lookup(PolicyMap(ops), b, x) != NoPolicy
    ensures exists h :: 0 <= h < |Run(ops)| && ObjectResource(b, x) in Run(ops)[h].resources
  {
    var a := if Readable(Lookup(PolicyMap(ops), b, x)) then GetObject else PutObject;
    RunRefinesMap(ops, b, x, a, Always);
    var h :| 0 <= h < |Run(ops)| && GrantedBy(Run(ops)[h], ObjectResource(b, x), a, Always);
  }

  ghost predicate HolderReads(ss: seq<Statement>, r: string) {
    exists i :: 0 <= i < |ss| && r in ss[i].resources && GetObjectPolicy(ss[i]).readOnly
  }

  ghost predicate HolderWrites(ss: seq<Statement>, r: string) {
    exists i :: 0 <= i < |ss| && r in ss[i].resources && GetObjectPolicy(ss[i]).writeOnly
  }

  lemma HolderFlags(ops: seq<Op>, i: nat, b: string, x: string)
    requires ValidRun(ops) && ValidBucket(b) && ValidPrefix(x)
    requires i < |Run(ops)| && ObjectResource(b, x) in Run(ops)[i].resources
    ensures FlagsAreGrants(Run(ops)[i], ObjectResource(b, x))
  {
    HeldIsSet(ops, i, b, x);
  }

  /** The statements that hold a prefix's resource say together what its policy says. */
  lemma FlagsOfHolders(ops: seq<Op>, b: string, x: string)
    requires ValidRun(ops) && ValidBucket(b) && ValidPrefix(x)
    ensures HolderReads(Run(ops), ObjectResource(b, x)) <==> Readable(Lookup(PolicyMap(ops), b, x))
    ensures HolderWrites(Run(ops), ObjectResource(b, x)) <==> Writable(Lookup(PolicyMap(ops), b, x))
  {
    var ss, r := Run(ops), ObjectResource(b, x);
    forall i | 0 <= i < |ss| && r in ss[i].resources
      ensures FlagsAreGrants(ss[i], r)
    {
      HolderFlags(ops, i, b, x);
    }
    HoldersGrant(ss, r);
    ObjectGrantsAreSet(ops, b, x);
  }

  lemma ObjectGrantsAreSet(ops: seq<Op>, b: string, x: string)
    requires ValidRun(ops) && ValidBucket(b) && ValidPrefix(x)
    ensures Granted(Run(ops), ObjectResource(b, x), GetObject, Always) <==> Readable(Lookup(PolicyMap(ops), b, x))
    ensures Granted(Run(ops), ObjectResource(b, x), PutObject, Always) <==> Writable(Lookup(PolicyMap(ops), b, x))
  {
    RunRefinesMap(ops, b, x, GetObject, Always);
    RunRefinesMap(ops, b, x, PutObject, Always);
  }

  ghost predicate FlagsAreGrants(s: Statement, r: string) {
    && (GetObjectPolicy(s).readOnly <==> GrantedBy(s, r, GetObject, Always))
    && (GetObjectPolicy(s).writeOnly <==> GrantedBy(s, r, PutObject, Always))
  }

  lemma HoldersGrant(ss: seq<Statement>, r: string)
    requires forall i :: 0 <= i < |ss| && r in ss[i].resources ==> FlagsAreGrants(ss[i], r)
    ensures HolderReads(ss, r) <==> Granted(ss, r, GetObject, Always)
    ensures HolderWrites(ss, r) <==> Granted(ss, r, PutObject, Always)
  {
  }

  lemma FlagsOfOwners(ss: seq<Statement>, target: string, top: string)
    requires forall i :: 0 <= i < |ss| ==> (OwnsLongest(ss, ss[i], target) <==> top in ss[i].resources)
    ensures ObjectReadOnly(ss, target) <==> HolderReads(ss, top)
    ensures ObjectWriteOnly(ss, target) <==> HolderWrites(ss, top)
  {
  }

  lemma NothingSetNothingRead(ops: seq<Op>, b: string, x: string)
    requires ValidRun(ops) && ValidBucket(b) && ValidPrefix(x)
    requires LongestSet(PolicyMap(ops), b, x) < 0
    ensures !ObjectReadOnly(Run(ops), ObjectResource(b, x)) && !ObjectWriteOnly(Run(ops), ObjectResource(b, x))
  {
    RunBounds(ops, b, x);
    forall i | 0 <= i < |Run(ops)| ensures !OwnsLongest(Run(ops), Run(ops)[i], ObjectResource(b, x)) {
      assert MatchedResources(Run(ops)[i], ObjectResource(b, x)) == {};
    }
  }

  /** The object half of what is read back is longest-prefix lookup in the map. */
  lemma ReadBackIsLongestPrefix(ops: seq<Op>, b: string, x: string)
    requires ValidRun(ops) && ValidBucket(b) && ValidPrefix(x)
    ensures ObjectReadOnly(Run(ops), ObjectResource(b, x)) <==> Readable(Access(PolicyMap(ops), b, x))
    ensures ObjectWriteOnly(Run(ops), ObjectResource(b, x)) <==> Writable(Access(PolicyMap(ops), b, x))
  {
    var k := LongestSet(PolicyMap(ops), b, x);
    if k < 0 {
      NothingSetNothingRead(ops, b, x);
    } else {
      LongestSetIsLongest(PolicyMap(ops), b, x);
      assert forall i :: 0 <= i < k ==> x[..k][i] == x[i];
      SomeoneHolds(ops, b, x[..k]);
      forall i | 0 <= i < |Run(ops)|
        ensures OwnsLongest(Run(ops), Run(ops)[i], ObjectResource(b, x))
           <==> ObjectResource(b, x[..k]) in Run(ops)[i].resources
      {
        LongestOwners(ops, b, x, k, i);
      }
      FlagsOfOwners(Run(ops), ObjectResource(b, x), ObjectResource(b, x[..k]));
      FlagsOfHolders(ops, b, x[..k]);
    }
  }

  // ----- the main results about GetPolicy -----

  /** Reading back never reports more than the longest matching prefix was given. */
  lemma ReadBackNeverExceeds(ops: seq<Op>, b: string, x: string)
    requires ValidRun(ops) && ValidBucket(b) && ValidPrefix(x)
    ensures ObjectActions(PolicyRule(Run(ops), b, x)) <= ObjectActions(Access(PolicyMap(ops), b, x))
  {
    ReadBackIsLongestPrefix(ops, b, x);
  }

  lemma GrantedMakesCommon(ss: seq<Statement>, b: string, x: string)
    requires Granted(ss, BucketResource(b), GetBucketLocation, Always)
    ensures BucketCommon(ss, b, x)
  {
    var i :| 0 <= i < |ss| && GrantedBy(ss[i], BucketResource(b), GetBucketLocation, Always);
    assert GetBucketPolicy(ss[i], x).common;
  }

  lemma GrantedMakesWritable(ss: seq<Statement>, b: string, x: string)
    requires Granted(ss, BucketResource(b), ListBucketMultipartUploads, Always)
    ensures BucketWriteOnly(ss, b, x)
  {
    var i :| 0 <= i < |ss| && GrantedBy(ss[i], BucketResource(b), ListBucketMultipartUploads, Always);
    assert GetBucketPolicy(ss[i], x).writeOnly;
  }

  lemma GrantedMakesReadable(ss: seq<Statement>, b: string, x: string)
    requires Granted(ss, BucketResource(b), ListBucket, ListScope(x))
    ensures BucketReadOnly(ss, b, x)
  {
    var i :| 0 <= i < |ss| && GrantedBy(ss[i], BucketResource(b), ListBucket, ListScope(x));
    assert GetBucketPolicy(ss[i], x).readOnly;
  }

  /** A readable or writable policy that is set is read back, after any run. */
  lemma GetAfterSet(ops: seq<Op>, p: BucketPolicy, b: string, x: string)
    requires ValidRun(ops) && ValidBucket(b) && ValidPrefix(x) && p != NoPolicy
    ensures PolicyRule(WithPolicy(Run(ops), p, b, x), b, x) == p
  {
    var ops' := ops + [Op(p, b, x)];
    assert ops'[..|ops|] == ops;
    var ss := WithPolicy(Run(ops), p, b, x);
    assert Run(ops') == ss;
    ReadBackIsLongestPrefix(ops', b, x);
    assert Lookup(PolicyMap(ops'), b, x) == p;
    assert x[..|x|] == x;
    RunIsWellFormed(ops);
    WithPolicyBucketGrants(Run(ops), p, b, x, GetBucketLocation, Always);
    GrantedMakesCommon(ss, b, x);
    if Readable(p) {
      WithPolicyBucketGrants(Run(ops), p, b, x, ListBucket, ListScope(x));
      GrantedMakesReadable(ss, b, x);
    }
    if Writable(p) {
      WithPolicyBucketGrants(Run(ops), p, b, x, ListBucketMultipartUploads, Always);
      GrantedMakesWritable(ss, b, x);
    }
  }

  // ----- the bucket half -----

  /** In lists that runs build, the bucket flags are the bucket grants. */
  lemma BucketFlagsAreGrants(ss: seq<Statement>, b: string, x: string)
    requires AllWellFormed(ss) && ValidBucket(b)
    ensures var r := BucketResource(b);
            && (BucketCommon(ss, b, x) <==> Granted(ss, r, GetBucketLocation, Always))
            && (BucketWriteOnly(ss, b, x) <==> Granted(ss, r, ListBucketMultipartUploads, Always))
            && (BucketReadOnly(ss, b, x) <==> ListingGranted(ss, b, x))
  {
    var r := BucketResource(b);
    forall i | 0 <= i < |ss| && r in ss[i].resources
      ensures GetBucketPolicy(ss[i], x).common <==> GrantedBy(ss[i], r, GetBucketLocation, Always)
      ensures GetBucketPolicy(ss[i], x).writeOnly <==> GrantedBy(ss[i], r, ListBucketMultipartUploads, Always)
      ensures GetBucketPolicy(ss[i], x).readOnly
         <==> GrantedBy(ss[i], r, ListBucket, Always) || (x != "" && GrantedBy(ss[i], r, ListBucket, ForPrefix(x)))
    {
    }
  }

  /** The bucket may be listed for prefix x. */
  ghost predicate ListingGranted(ss: seq<Statement>, b: string, x: string) {
    || Granted(ss, BucketResource(b), ListBucket, Always)
    || (x != "" && Granted(ss, BucketResource(b), ListBucket, ForPrefix(x)))
  }

  /** GetPolicy returns the policy of the longest set prefix exactly when the list still
      holds the bucket grants that this policy needs. */
  lemma ReadBackIsExactIffBucketGrantsHold(ops: seq<Op>, b: string, x: string)
    requires ValidRun(ops) && ValidBucket(b) && ValidPrefix(x)
    ensures var ss, p := Run(ops), Access(PolicyMap(ops), b, x);
            PolicyRule(ss, b, x) == p <==>
              (p != NoPolicy ==>
                && Granted(ss, BucketResource(b), GetBucketLocation, Always)
                && (Readable(p) ==> ListingGranted(ss, b, x))
                && (Writable(p) ==> Granted(ss, BucketResource(b), ListBucketMultipartUploads, Always)))
  {
    RunIsWellFormed(ops);
    BucketFlagsAreGrants(Run(ops), b, x);
    ReadBackIsLongestPrefix(ops, b, x);
  }

  /** The grant holds on b's resource after SetPolicy, said of the list it is called with. */
  predicate HeldAfter(ss: seq<Statement>, p: BucketPolicy, b: string, x: string, a: Action, scope: Scope) {
    PolicyGrant(p, b, x, BucketResource(b), a, scope) || BucketGrantStays(ss, b, x, a, scope)
  }

  /** The bucket grants of policy q for prefix y hold after SetPolicy. */
  predicate KeepsReadable(ss: seq<Statement>, p: BucketPolicy, b: string, x: string, q: BucketPolicy, y: string) {
    && HeldAfter(ss, p, b, x, GetBucketLocation, Always)
    && (Readable(q) ==>
          || HeldAfter(ss, p, b, x, ListBucket, Always)
          || (y != "" && HeldAfter(ss, p, b, x, ListBucket, ForPrefix(y))))
    && (Writable(q) ==> HeldAfter(ss, p, b, x, ListBucketMultipartUploads, Always))
  }

  /** Setting a policy for x leaves what the map says of prefix y of the same bucket to be read
      back if and only if the list it is called with lets y's bucket grants stay, or the new
      policy gives them. */
  lemma SetKeepsReadBackIff(ops: seq<Op>, p: BucketPolicy, b: string, x: string, y: string)
    requires ValidRun(ops) && ValidBucket(b) && ValidPrefix(x) && ValidPrefix(y)
    ensures var q := Access(PolicyMap(ops)[(b, x) := p], b, y);
            PolicyRule(WithPolicy(Run(ops), p, b, x), b, y) == q
            <==> (q != NoPolicy ==> KeepsReadable(Run(ops), p, b, x, q, y))
  {
    var ops' := ops + [Op(p, b, x)];
    assert ops'[..|ops|] == ops;
    RunIsWellFormed(ops);
    ReadBackIsExactIffBucketGrantsHold(ops', b, y);
    WithPolicyBucketGrantsIff(Run(ops), p, b, x, GetBucketLocation, Always);
    WithPolicyBucketGrantsIff(Run(ops), p, b, x, ListBucket, Always);
    WithPolicyBucketGrantsIff(Run(ops), p, b, x, ListBucket, ForPrefix(y));
    WithPolicyBucketGrantsIff(Run(ops), p, b, x, ListBucketMultipartUploads, Always);
  }

  lemma {:induction false} LongestSetOfBucket(m: map<(string, string), BucketPolicy>,
                                              m': map<(string, string), BucketPolicy>, b: string, x: string)
    requires forall y :: Lookup(m, b, y) == Lookup(m', b, y)
    ensures LongestSet(m, b, x) == LongestSet(m', b, x)
  {
    if Lookup(m, b, x) == NoPolicy && x != "" {
      LongestSetOfBucket(m, m', b, x[..|x| - 1]);
    }
  }

  /** Setting a policy in one bucket never changes what is read back for another. */
  lemma OtherBucketsUntouched(ops: seq<Op>, p: BucketPolicy, b: string, x: string, b': string, y: string)
    requires ValidRun(ops) && ValidBucket(b) && ValidPrefix(x)
    requires ValidBucket(b') && ValidPrefix(y) && b' != b
    ensures PolicyRule(WithPolicy(Run(ops), p, b, x), b', y) == PolicyRule(Run(ops), b', y)
  {
    OtherObjectFlags(ops, p, b, x, b', y);
    RunIsWellFormed(ops);
    OtherBucketFlags(Run(ops), p, b, x, b', y);
    SameFlagsSameRule(WithPolicy(Run(ops), p, b, x), Run(ops), b', y);
  }

  ghost predicate SameBucketFlags(ss: seq<Statement>, ss': seq<Statement>, b: string, x: string) {
    && BucketCommon(ss, b, x) == BucketCommon(ss', b, x)
    && BucketReadOnly(ss, b, x) == BucketReadOnly(ss', b, x)
    && BucketWriteOnly(ss, b, x) == BucketWriteOnly(ss', b, x)
  }

  ghost predicate SameObjectFlags(ss: seq<Statement>, ss': seq<Statement>, target: string) {
    && ObjectReadOnly(ss, target) == ObjectReadOnly(ss', target)
    && ObjectWriteOnly(ss, target) == ObjectWriteOnly(ss', target)
  }

  lemma SameFlagsSameRule(ss: seq<Statement>, ss': seq<Statement>, b: string, x: string)
    requires SameBucketFlags(ss, ss', b, x) && SameObjectFlags(ss, ss', ObjectResource(b, x))
    ensures PolicyRule(ss, b, x) == PolicyRule(ss', b, x)
  {
  }

  lemma OtherBucketFlags(ss: seq<Statement>, p: BucketPolicy, b: string, x: string, b': string, y: string)
    requires AllWellFormed(ss) && ValidBucket(b) && ValidPrefix(x) && ValidBucket(b') && b' != b
    ensures SameBucketFlags(WithPolicy(ss, p, b, x), ss, b', y)
  {
    OtherBucketGrants(ss, p, b, x, b', GetBucketLocation, Always);
    OtherBucketGrants(ss, p, b, x, b', ListBucketMultipartUploads, Always);
    OtherBucketGrants(ss, p, b, x, b', ListBucket, Always);
    OtherBucketGrants(ss, p, b, x, b', ListBucket, ForPrefix(y));
    BucketFlagsAreGrants(ss, b', y);
    BucketFlagsAreGrants(WithPolicy(ss, p, b, x), b', y);
  }

  lemma OtherObjectFlags(ops: seq<Op>, p: BucketPolicy, b: string, x: string, b': string, y: string)
    requires ValidRun(ops) && ValidBucket(b) && ValidPrefix(x)
    requires ValidBucket(b') && ValidPrefix(y) && b' != b
    ensures SameObjectFlags(WithPolicy(Run(ops), p, b, x), Run(ops), ObjectResource(b', y))
  {
    var ops' := ops + [Op(p, b, x)];
    assert ops'[..|ops|] == ops;
    assert Run(ops') == WithPolicy(Run(ops), p, b, x);
    ReadBackIsLongestPrefix(ops, b', y);
    ReadBackIsLongestPrefix(ops', b', y);
    assert PolicyMap(ops') == PolicyMap(ops)[(b, x) := p];
    LongestSetOfBucket(PolicyMap(ops), PolicyMap(ops'), b', y);
  }

  lemma OtherBucketGrants(ss: seq<Statement>, p: BucketPolicy, b: string, x: string,
                          b': string, a: Action, scope: Scope)
    requires AllWellFormed(ss) && ValidBucket(b) && ValidPrefix(x) && ValidBucket(b') && b' != b
    ensures AllWellFormed(WithPolicy(ss, p, b, x))
    ensures Granted(WithPolicy(ss, p, b, x), BucketResource(b'), a, scope)
       <==> Granted(ss, BucketResource(b'), a, scope)
  {
    ObjectResourceShape(b, x);
    BucketResourceShape(b');
    if BucketResource(b') == BucketResource(b) {
      BucketResourceInjective(b', b);
    }
    WithPolicyGrants(ss, p, b, x, BucketResource(b'), a, scope);
  }
}
