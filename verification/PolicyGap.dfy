/**
 A limit of SetPolicy, with the run that shows it: taking one prefix's policy away can take
 the bucket grant that another prefix of the same bucket still needs.
*/
module PolicyGap {
  import opened Wrappers
  import opened Resources
  import opened Conditions
  import opened Policy
  import opened PolicyGrants
  import opened PolicyBuckets
  import opened PolicyRead
  import opened PolicyRuns

  function Uploads(actions: set<Action>, b: string): Statement {
    AllowEveryone(actions, None, BucketResource(b))
  }

  function Writers(resources: set<string>): Statement {
    Statement(WRITE_ONLY_OBJECT_ACTIONS, None, Allow, User({"*"}, {}), resources, "")
  }

  const BOTH := COMMON_BUCKET_ACTIONS + WRITE_ONLY_BUCKET_ACTIONS

  lemma AppendOne(s: Statement, t: Statement)
    requires MergedInto(s, t) == None && t.actions != {}
    ensures Appended([s], t) == [s, t]
  {
    assert [s][1..] == [];
  }

  lemma AppendThree(ss: seq<Statement>, t0: Statement, t1: Statement, t2: Statement)
    ensures AppendedAll(ss, [t0, t1, t2]) == Appended(Appended(Appended(ss, t0), t1), t2)
  {
    var s1 := Appended(ss, t0);
    var s2 := Appended(s1, t1);
    assert [t0, t1, t2][1..] == [t1, t2] && [t1, t2][1..] == [t2] && [t2][1..] == [];
    assert AppendedAll(s2, [t2]) == AppendedAll(Appended(s2, t2), []);
    assert AppendedAll(s1, [t1, t2]) == AppendedAll(s2, [t2]);
  }

  lemma NewWriteStatements(b: string, x: string)
    requires b != ""
    ensures NewStatements(WriteOnly, b, x)
         == [Uploads(COMMON_BUCKET_ACTIONS, b), Uploads(WRITE_ONLY_BUCKET_ACTIONS, b), Writers({ObjectResource(b, x)})]
  {
  }

  lemma NamesApart(b: string, x: string)
    requires ValidBucket(b) && ValidPrefix(x)
    ensures BucketResource(b) != ObjectResource(b, x) && ObjectResourcePrefix(b) <= ObjectResource(b, x)
    ensures !(ObjectResourcePrefix(b) <= BucketResource(b))
  {
    BucketResourceShape(b);
    ObjectResourceShape(b, x);
    BucketResourceIsNotBelow(BucketResource(b), b);
  }

  lemma WriterStaysApart(b: string, resources: set<string>)
    requires resources != {BucketResource(b)}
    ensures MergedInto(Uploads(BOTH, b), Writers(resources)) == None
  {
    assert PutObject in Writers(resources).actions && PutObject !in BOTH;
  }

  /** The first write-only prefix. */
  lemma FirstWriter(b: string, x: string)
    requires ValidBucket(b) && ValidPrefix(x)
    ensures WithPolicy([], WriteOnly, b, x) == [Uploads(BOTH, b), Writers({ObjectResource(b, x)})]
  {
    NewWriteStatements(b, x);
    NamesApart(b, x);
    var common, uploads := Uploads(COMMON_BUCKET_ACTIONS, b), Uploads(WRITE_ONLY_BUCKET_ACTIONS, b);
    var w := Writers({ObjectResource(b, x)});
    assert ObjectResource(b, x) in {ObjectResource(b, x)} && ObjectResource(b, x) !in {BucketResource(b)};
    assert Removed([], b, x) == [];
    AppendThree([], common, uploads, w);
    assert Appended([], common) == [common];
    assert Appended([common], uploads) == [Uploads(BOTH, b)] + [common][1..];
    WriterStaysApart(b, {ObjectResource(b, x)});
    AppendOne(Uploads(BOTH, b), w);
  }

  lemma SweepTwo(s: Statement, t: Statement, b: string, x: string, r: bool, w: bool)
    ensures SweepAll([s, t], b, x, r, w) == SweepOne(SweepOne(Sweep([], [], {}), s, b, x, r, w), t, b, x, r, w)
  {
    assert [s, t][..1] == [s] && [s][..0] == [];
    assert SweepAll([s], b, x, r, w) == SweepOne(SweepAll([], b, x, r, w), s, b, x, r, w);
  }

  /** A bucket statement and one writer, swept for a prefix the writer does not hold. */
  lemma RemoveUnheld(b: string, x: string, y: string)
    requires ValidBucket(b) && ValidPrefix(x) && ValidPrefix(y) && x != y
    ensures var ss := [Uploads(BOTH, b), Writers({ObjectResource(b, x)})]; Removed(ss, b, y) == ss
  {
    var u, w := Uploads(BOTH, b), Writers({ObjectResource(b, x)});
    var ss := [u, w];
    NamesApart(b, x);
    if ObjectResource(b, x) == ObjectResource(b, y) {
      ObjectResourceInjective(b, x, b, y);
    }
    assert ObjectResource(b, x) in w.resources;
    assert HoldsObjectsOf(w, b);
    assert UsedByOthers(ss[1], b, y, WRITE_ONLY_OBJECT_ACTIONS);
    assert GetBucketLocation in u.actions * VALID_ACTIONS;
    assert PutObject in w.actions * VALID_ACTIONS;
    var r := InUse(ss, b, y, READ_ONLY_OBJECT_ACTIONS);
    assert Stripped(u, b, y, r, true) == u;
    assert Stripped(w, b, y, r, true) == w;
    SweepTwo(u, w, b, y, r, true);
  }

  /** A bucket statement with all the actions takes in another one. */
  lemma BucketAbsorbs(b: string, actions: set<Action>, w: Statement)
    requires actions <= BOTH && actions != {}
    ensures Appended([Uploads(BOTH, b), w], Uploads(actions, b)) == [Uploads(BOTH, b), w]
  {
    var r := {BucketResource(b)};
    assert BOTH + actions == BOTH && r + r == r;
    assert MergedInto(Uploads(BOTH, b), Uploads(actions, b)) == Some(Uploads(BOTH, b));
    assert [Uploads(BOTH, b)] + [Uploads(BOTH, b), w][1..] == [Uploads(BOTH, b), w];
  }

  lemma WritersJoin(u: Statement, rx: string, ry: string)
    requires MergedInto(u, Writers({ry})) == None
    ensures Appended([u, Writers({rx})], Writers({ry})) == [u, Writers({rx, ry})]
  {
    var w, t, both := Writers({rx}), Writers({ry}), Writers({rx, ry});
    assert {rx} + {ry} == {rx, ry} && ry in {ry};
    assert MergedInto(w, t) == Some(both);
    assert [u, w][1..] == [w] && [w][1..] == [];
    assert Appended([w], t) == [both] + [];
  }

  /** The second write-only prefix of the same bucket joins the first. */
  lemma SecondWriter(b: string, x: string, y: string)
    requires ValidBucket(b) && ValidPrefix(x) && ValidPrefix(y) && x != y
    ensures WithPolicy([Uploads(BOTH, b), Writers({ObjectResource(b, x)})], WriteOnly, b, y)
         == [Uploads(BOTH, b), Writers({ObjectResource(b, x), ObjectResource(b, y)})]
  {
    var rx, ry := ObjectResource(b, x), ObjectResource(b, y);
    var u, w := Uploads(BOTH, b), Writers({rx});
    RemoveUnheld(b, x, y);
    NewWriteStatements(b, y);
    NamesApart(b, y);
    AppendThree([u, w], Uploads(COMMON_BUCKET_ACTIONS, b), Uploads(WRITE_ONLY_BUCKET_ACTIONS, b), Writers({ry}));
    BucketAbsorbs(b, COMMON_BUCKET_ACTIONS, w);
    BucketAbsorbs(b, WRITE_ONLY_BUCKET_ACTIONS, w);
    assert ry in {ry} && ry !in {BucketResource(b)};
    WriterStaysApart(b, {ry});
    WritersJoin(u, rx, ry);
  }

  /** Taking the first prefix away again takes the bucket's upload listing with it. */
  lemma UploadsTaken(b: string, x: string, y: string)
    requires ValidBucket(b) && ValidPrefix(x) && ValidPrefix(y) && x != y
    ensures Removed([Uploads(BOTH, b), Writers({ObjectResource(b, x), ObjectResource(b, y)})], b, x)
         == [Uploads(COMMON_BUCKET_ACTIONS, b), Writers({ObjectResource(b, y)})]
  {
    var rx, ry := ObjectResource(b, x), ObjectResource(b, y);
    var u, w := Uploads(BOTH, b), Writers({rx, ry});
    var ss := [u, w];
    NamesApart(b, x);
    NamesApart(b, y);
    if rx == ry {
      ObjectResourceInjective(b, x, b, y);
    }
    assert rx in w.resources;
    assert HoldsObjectsOf(w, b);
    assert !HoldsObjectsOf(u, b);
    assert !UsedByOthers(ss[0], b, x, READ_ONLY_OBJECT_ACTIONS) && !UsedByOthers(ss[0], b, x, WRITE_ONLY_OBJECT_ACTIONS);
    assert !UsedByOthers(ss[1], b, x, READ_ONLY_OBJECT_ACTIONS) && !UsedByOthers(ss[1], b, x, WRITE_ONLY_OBJECT_ACTIONS);
    assert GetBucketLocation in u.actions * VALID_ACTIONS;
    assert PutObject in w.actions * VALID_ACTIONS;
    assert BOTH - WRITE_ONLY_BUCKET_ACTIONS == COMMON_BUCKET_ACTIONS;
    assert Stripped(u, b, x, false, false) == Uploads(COMMON_BUCKET_ACTIONS, b);
    assert {rx, ry} - {rx} == {ry};
    assert Stripped(w, b, x, false, false) == Writers({ry});
    SweepTwo(u, w, b, x, false, false);
  }

  lemma {:induction false} RunOfThree(o0: Op, o1: Op, o2: Op)
    ensures Run([o0]) == WithPolicy([], o0.policy, o0.bucket, o0.prefix)
    ensures Run([o0, o1]) == WithPolicy(Run([o0]), o1.policy, o1.bucket, o1.prefix)
    ensures Run([o0, o1, o2]) == WithPolicy(Run([o0, o1]), o2.policy, o2.bucket, o2.prefix)
  {
    assert [o0, o1, o2][..2] == [o0, o1] && [o0, o1][..1] == [o0] && [o0][..0] == [];
  }

  lemma MapOfThree(o0: Op, o1: Op, o2: Op)
    ensures PolicyMap([o0, o1, o2])
         == map[(o0.bucket, o0.prefix) := o0.policy]
              [(o1.bucket, o1.prefix) := o1.policy]
              [(o2.bucket, o2.prefix) := o2.policy]
  {
    assert [o0, o1, o2][..2] == [o0, o1] && [o0, o1][..1] == [o0] && [o0][..0] == [];
    assert PolicyMap([o0]) == map[(o0.bucket, o0.prefix) := o0.policy];
  }

  lemma ThreeSteps(b: string, x: string, y: string)
    requires ValidBucket(b) && ValidPrefix(x) && ValidPrefix(y) && x != y
    ensures Run([Op(WriteOnly, b, x), Op(WriteOnly, b, y), Op(NoPolicy, b, x)])
         == [Uploads(COMMON_BUCKET_ACTIONS, b), Writers({ObjectResource(b, y)})]
  {
    RunOfThree(Op(WriteOnly, b, x), Op(WriteOnly, b, y), Op(NoPolicy, b, x));
    FirstWriter(b, x);
    SecondWriter(b, x, y);
    UploadsTaken(b, x, y);
  }

  /** Two write-only prefixes, the first of which is set back to none: the second keeps its
      object actions, and the map still says write-only, but nothing is read back. */
  lemma SetNoneHidesOtherPrefix(b: string, x: string, y: string)
    requires ValidBucket(b) && ValidPrefix(x) && ValidPrefix(y) && x != y
    ensures var o0, o1, o2 := Op(WriteOnly, b, x), Op(WriteOnly, b, y), Op(NoPolicy, b, x);
            && PolicyRule(Run([o0, o1]), b, y) == WriteOnly
            && PolicyRule(Run([o0, o1, o2]), b, y) == NoPolicy
            && Access(PolicyMap([o0, o1, o2]), b, y) == WriteOnly
  {
    MapAfter(b, x, y);
    ReadBefore(b, x, y);
    ReadAfter(b, x, y);
  }

  lemma MapAfter(b: string, x: string, y: string)
    requires x != y
    ensures Access(PolicyMap([Op(WriteOnly, b, x), Op(WriteOnly, b, y), Op(NoPolicy, b, x)]), b, y) == WriteOnly
  {
    MapOfThree(Op(WriteOnly, b, x), Op(WriteOnly, b, y), Op(NoPolicy, b, x));
    assert y[..|y|] == y;
  }

  lemma ReadBefore(b: string, x: string, y: string)
    requires ValidBucket(b) && ValidPrefix(x) && ValidPrefix(y)
    ensures PolicyRule(Run([Op(WriteOnly, b, x), Op(WriteOnly, b, y)]), b, y) == WriteOnly
  {
    RunOfThree(Op(WriteOnly, b, x), Op(WriteOnly, b, y), Op(NoPolicy, b, x));
    GetAfterSet([Op(WriteOnly, b, x)], WriteOnly, b, y);
  }

  lemma ReadAfter(b: string, x: string, y: string)
    requires ValidBucket(b) && ValidPrefix(x) && ValidPrefix(y) && x != y
    ensures PolicyRule(Run([Op(WriteOnly, b, x), Op(WriteOnly, b, y), Op(NoPolicy, b, x)]), b, y) == NoPolicy
  {
    ThreeSteps(b, x, y);
    RuleAfter(b, y);
  }

  lemma RuleAfter(b: string, y: string)
    requires ValidBucket(b) && ValidPrefix(y)
    ensures PolicyRule([Uploads(COMMON_BUCKET_ACTIONS, b), Writers({ObjectResource(b, y)})], b, y) == NoPolicy
  {
    NothingGrantsUploads(b, y);
    NothingReads([Uploads(COMMON_BUCKET_ACTIONS, b), Writers({ObjectResource(b, y)})], b, y);
  }

  lemma NothingReads(ss: seq<Statement>, b: string, y: string)
    requires forall i :: 0 <= i < |ss| ==> GetObject !in ss[i].actions
    requires !BucketWriteOnly(ss, b, y)
    ensures PolicyRule(ss, b, y) == NoPolicy
  {
    forall i | 0 <= i < |ss| ensures !GetObjectPolicy(ss[i]).readOnly {
      assert GetObject in READ_ONLY_OBJECT_ACTIONS;
    }
  }

  lemma NothingGrantsUploads(b: string, y: string)
    ensures !BucketWriteOnly([Uploads(COMMON_BUCKET_ACTIONS, b), Writers({ObjectResource(b, y)})], b, y)
  {
    assert ListBucketMultipartUploads in WRITE_ONLY_BUCKET_ACTIONS;
    assert ListBucketMultipartUploads !in COMMON_BUCKET_ACTIONS;
    assert ListBucketMultipartUploads !in WRITE_ONLY_OBJECT_ACTIONS;
  }

  // ----- across buckets -----

  /** If the bucket's location is only granted in statements that it shares with another
      bucket, then setting none for any prefix of it, set or not, hides all of its policies. */
  lemma SharedBucketIsDropped(ss: seq<Statement>, b: string, z: string, y: string)
    requires ValidBucket(b) && ValidPrefix(z) && AllWellFormed(ss)
    requires forall i :: 0 <= i < |ss| ==> !IsCommon(ss[i], b)
    ensures PolicyRule(WithPolicy(ss, NoPolicy, b, z), b, y) == NoPolicy
  {
    WithPolicyBucketGrantsIff(ss, NoPolicy, b, z, GetBucketLocation, Always);
    WithPolicyGrants(ss, NoPolicy, b, z, ObjectResource(b, z), GetObject, Always);
    BucketFlagsAreGrants(WithPolicy(ss, NoPolicy, b, z), b, y);
  }

  function Readers(bs: set<string>): Statement {
    Statement(READ_ONLY_OBJECT_ACTIONS, None, Allow, User({"*"}, {}), bs, "")
  }

  function Commons(bs: set<string>): Statement {
    Statement(COMMON_BUCKET_ACTIONS, None, Allow, User({"*"}, {}), bs, "")
  }

  function Listers(x: string, bs: set<string>): Statement {
    Statement(READ_ONLY_BUCKET_ACTIONS, Some(PrefixCondition(x)), Allow, User({"*"}, {}), bs, "")
  }

  lemma NewReadStatements(b: string, x: string)
    requires b != "" && x != ""
    ensures NewStatements(ReadOnly, b, x)
         == [Commons({BucketResource(b)}), Listers(x, {BucketResource(b)}), Readers({ObjectResource(b, x)})]
  {
  }

  /** Statements of three kinds do not merge with one another. */
  lemma ThreeKindsApart(x: string, bs: set<string>, cs: set<string>, os: set<string>)
    requires bs != os
    ensures MergedInto(Commons(bs), Listers(x, cs)) == None
    ensures MergedInto(Commons(bs), Readers(os)) == None
    ensures MergedInto(Listers(x, cs), Readers(os)) == None
  {
    assert ListBucket in READ_ONLY_BUCKET_ACTIONS && ListBucket !in COMMON_BUCKET_ACTIONS;
    assert GetObject in READ_ONLY_OBJECT_ACTIONS && GetObject !in COMMON_BUCKET_ACTIONS;
    assert GetObject !in READ_ONLY_BUCKET_ACTIONS;
  }

  /** The first readable prefix. */
  lemma FirstReader(b: string, x: string)
    requires ValidBucket(b) && ValidPrefix(x) && x != ""
    ensures var r, o := BucketResource(b), ObjectResource(b, x);
            WithPolicy([], ReadOnly, b, x) == [Commons({r}), Listers(x, {r}), Readers({o})]
  {
    var r, o := BucketResource(b), ObjectResource(b, x);
    var c, l, t := Commons({r}), Listers(x, {r}), Readers({o});
    NewReadStatements(b, x);
    NamesApart(b, x);
    assert o in {o} && o !in {r};
    ThreeKindsApart(x, {r}, {r}, {o});
    assert Removed([], b, x) == [];
    AppendThree([], c, l, t);
    assert [c][1..] == [] && [c, l][1..] == [l] && [l][1..] == [];
    assert Appended([l], t) == [l, t];
  }

  /** A list that is not about bucket b is left as it is. */
  lemma RemoveForeign(ss: seq<Statement>, b: string, x: string)
    requires forall i :: 0 <= i < |ss| ==> !IsValidStatement(ss[i], b) && BucketResource(b) !in ss[i].resources
    ensures Removed(ss, b, x) == ss
  {
    SweepForeign(ss, b, x, InUse(ss, b, x, READ_ONLY_OBJECT_ACTIONS), InUse(ss, b, x, WRITE_ONLY_OBJECT_ACTIONS));
    assert ss + [] == ss;
  }

  lemma {:induction false} SweepForeign(ss: seq<Statement>, b: string, x: string, r: bool, w: bool)
    requires forall i :: 0 <= i < |ss| ==> !IsValidStatement(ss[i], b)
    ensures SweepAll(ss, b, x, r, w) == Sweep(ss, [], {})
  {
    if ss != [] {
      SweepForeign(ss[..|ss| - 1], b, x, r, w);
      assert ss == ss[..|ss| - 1] + [ss[|ss| - 1]];
    }
  }

  lemma OtherBucketsList(b: string, x: string, b': string)
    requires ValidBucket(b) && ValidPrefix(x) && ValidBucket(b') && b != b'
    ensures var r, o := BucketResource(b), ObjectResource(b, x);
            BucketResource(b') != r && BucketResource(b') != o
            && !(ObjectResourcePrefix(b') <= r) && !(ObjectResourcePrefix(b') <= o)
  {
    NamesApart(b, x);
    BucketResourceShape(b);
    BucketResourceShape(b');
    ObjectResourceShape(b, x);
    BucketResourceIsNotBelow(BucketResource(b), b');
    if BucketResource(b') == BucketResource(b) {
      BucketResourceInjective(b', b);
    }
    if ObjectResourcePrefix(b') <= ObjectResource(b, x) {
      SlashEndsName(AWS_RESOURCE_PREFIX, b, b', ObjectResource(b, x));
    }
  }

  /** The same policy for the same prefix of a second bucket joins the first, statement by
      statement. */
  lemma SecondReader(b: string, b': string, x: string)
    requires ValidBucket(b) && ValidBucket(b') && b != b' && ValidPrefix(x) && x != ""
    ensures var r, o, r', o' := BucketResource(b), ObjectResource(b, x), BucketResource(b'), ObjectResource(b', x);
            WithPolicy([Commons({r}), Listers(x, {r}), Readers({o})], ReadOnly, b', x)
            == [Commons({r, r'}), Listers(x, {r, r'}), Readers({o, o'})]
  {
    var r, o, r', o' := BucketResource(b), ObjectResource(b, x), BucketResource(b'), ObjectResource(b', x);
    var ss := [Commons({r}), Listers(x, {r}), Readers({o})];
    ReadersAreForeign(b, b', x);
    RemoveForeign(ss, b', x);
    NewReadStatements(b', x);
    OtherBucketsList(b', x, b);
    AppendThree(ss, Commons({r'}), Listers(x, {r'}), Readers({o'}));
    assert {r} + {r'} == {r, r'} && {o} + {o'} == {o, o'};
    assert o' in {o'} && r in {r} + {r'} && r != o';
    ReadersJoin(x, {r}, {r'}, {o}, {o'});
  }

  lemma ReadersAreForeign(b: string, b': string, x: string)
    requires ValidBucket(b) && ValidBucket(b') && b != b' && ValidPrefix(x)
    ensures var r, o := BucketResource(b), ObjectResource(b, x);
            var ss := [Commons({r}), Listers(x, {r}), Readers({o})];
            forall i :: 0 <= i < |ss| ==> !IsValidStatement(ss[i], b') && BucketResource(b') !in ss[i].resources
  {
    OtherBucketsList(b, x, b');
  }

  lemma ReadersJoin(x: string, r: set<string>, r': set<string>, o: set<string>, o': set<string>)
    requires r + r' != o'
    ensures var ss := [Commons(r), Listers(x, r), Readers(o)];
            Appended(Appended(Appended(ss, Commons(r')), Listers(x, r')), Readers(o'))
            == [Commons(r + r'), Listers(x, r + r'), Readers(o + o')]
  {
    var c, l, t := Commons(r + r'), Listers(x, r + r'), Readers(o + o');
    var ss := [Commons(r), Listers(x, r), Readers(o)];
    assert MergedInto(Commons(r), Commons(r')) == Some(c);
    assert Appended(ss, Commons(r')) == [c] + ss[1..];
    var s1 := [c, Listers(x, r), Readers(o)];
    assert [c] + ss[1..] == s1;
    ThreeKindsApart(x, r + r', r', o');
    ThreeKindsApart(x, r + r', r + r', o');
    assert MergedInto(Listers(x, r), Listers(x, r')) == Some(l);
    assert s1[1..] == [Listers(x, r), Readers(o)];
    assert Appended(s1[1..], Listers(x, r')) == [l] + [Readers(o)];
    var s2 := [c, l, Readers(o)];
    assert [c] + ([l] + [Readers(o)]) == s2;
    assert MergedInto(Readers(o), Readers(o')) == Some(t);
    assert s2[1..] == [l, Readers(o)] && s2[1..][1..] == [Readers(o)];
    assert Appended([Readers(o)], Readers(o')) == [t] + [];
  }

  lemma NoneIsCommon(b: string, x: string, rs: set<string>, os: set<string>, r': string)
    requires r' in rs && r' != BucketResource(b)
    ensures var ss := [Commons(rs), Listers(x, rs), Readers(os)];
            forall i :: 0 <= i < |ss| ==> !IsCommon(ss[i], b)
  {
    assert r' !in {BucketResource(b)};
    assert GetBucketLocation !in READ_ONLY_OBJECT_ACTIONS;
  }

  lemma {:induction false} RunOne(ops: seq<Op>, o: Op)
    requires |ops| == 1 && ops[0] == o
    ensures Run(ops) == WithPolicy([], o.policy, o.bucket, o.prefix)
  {
    assert ops[..0] == [];
  }

  lemma {:induction false} RunLast(ops: seq<Op>, o: Op)
    requires ops != [] && ops[|ops| - 1] == o
    ensures Run(ops) == WithPolicy(Run(ops[..|ops| - 1]), o.policy, o.bucket, o.prefix)
  {
  }

  /** The first two steps, as one list. */
  lemma {:induction false} SharedRun(ops: seq<Op>, b: string, b': string, x: string) returns (ss: seq<Statement>)
    requires ValidBucket(b) && ValidBucket(b') && b != b' && ValidPrefix(x) && x != ""
    requires |ops| == 2 && ops[0] == Op(ReadOnly, b, x) && ops[1] == Op(ReadOnly, b', x)
    ensures ss == Run(ops) && forall i :: 0 <= i < |ss| ==> !IsCommon(ss[i], b)
  {
    var first;
    first, ss := SharedLists(b, b', x);
    RunTwo(ops, Op(ReadOnly, b, x), Op(ReadOnly, b', x), first, ss);
  }

  lemma {:induction false} RunTwo(ops: seq<Op>, o: Op, o': Op, first: seq<Statement>, ss: seq<Statement>)
    requires |ops| == 2 && ops[0] == o && ops[1] == o'
    requires first == WithPolicy([], o.policy, o.bucket, o.prefix)
    requires ss == WithPolicy(first, o'.policy, o'.bucket, o'.prefix)
    ensures Run(ops) == ss
  {
    RunOne(ops[..1], o);
    RunLast(ops, o');
  }

  lemma SharedLists(b: string, b': string, x: string) returns (first: seq<Statement>, ss: seq<Statement>)
    requires ValidBucket(b) && ValidBucket(b') && b != b' && ValidPrefix(x) && x != ""
    ensures first == WithPolicy([], ReadOnly, b, x) && ss == WithPolicy(first, ReadOnly, b', x)
    ensures forall i :: 0 <= i < |ss| ==> !IsCommon(ss[i], b)
  {
    var r, r', o, o' := BucketResource(b), BucketResource(b'), ObjectResource(b, x), ObjectResource(b', x);
    first := [Commons({r}), Listers(x, {r}), Readers({o})];
    ss := [Commons({r, r'}), Listers(x, {r, r'}), Readers({o, o'})];
    FirstReader(b, x);
    SecondReader(b, b', x);
    OtherBucketsList(b, x, b');
    NoneIsCommon(b, x, {r, r'}, {o, o'}, r');
  }

  lemma {:induction false} SharedBefore(ops: seq<Op>, b: string, b': string, x: string)
    requires ValidBucket(b) && ValidBucket(b') && b != b' && ValidPrefix(x)
    requires |ops| == 2 && ops[0] == Op(ReadOnly, b, x) && ops[1] == Op(ReadOnly, b', x)
    ensures PolicyRule(Run(ops), b, x) == ReadOnly
  {
    var one := ops[..1];
    RunLast(one, Op(ReadOnly, b, x));
    RunLast(ops, Op(ReadOnly, b', x));
    GetAfterSet(one[..0], ReadOnly, b, x);
    OtherBucketsUntouched(one, ReadOnly, b', x, b, x);
  }

  lemma {:induction false} SharedMap(ops: seq<Op>, b: string, b': string, x: string, z: string)
    requires b != b' && z != x
    requires |ops| == 3 && ops[0] == Op(ReadOnly, b, x) && ops[1] == Op(ReadOnly, b', x) && ops[2] == Op(NoPolicy, b, z)
    ensures Access(PolicyMap(ops), b, x) == ReadOnly
  {
    assert ops == [ops[0], ops[1], ops[2]];
    MapOfThree(ops[0], ops[1], ops[2]);
    assert x[..|x|] == x;
  }

  /** Two buckets with the same readable prefix, and then none for another prefix of the
      first, which was never set: the map still says read-only, but nothing is read back. */
  lemma {:induction false} SetNoneHidesSharedBucket(ops: seq<Op>, b: string, b': string, x: string, z: string)
    requires ValidBucket(b) && ValidBucket(b') && b != b' && ValidPrefix(x) && ValidPrefix(z) && x != "" && z != x
    requires |ops| == 3 && ops[0] == Op(ReadOnly, b, x) && ops[1] == Op(ReadOnly, b', x) && ops[2] == Op(NoPolicy, b, z)
    ensures PolicyRule(Run(ops[..2]), b, x) == ReadOnly
    ensures PolicyRule(Run(ops), b, x) == NoPolicy
    ensures Access(PolicyMap(ops), b, x) == ReadOnly
  {
    SharedBefore(ops[..2], b, b', x);
    SharedMap(ops, b, b', x, z);
    SharedAfter(ops, b, b', x, z);
  }

  lemma {:induction false} SharedAfter(ops: seq<Op>, b: string, b': string, x: string, z: string)
    requires ValidBucket(b) && ValidBucket(b') && b != b' && ValidPrefix(x) && ValidPrefix(z) && x != ""
    requires |ops| == 3 && ops[0] == Op(ReadOnly, b, x) && ops[1] == Op(ReadOnly, b', x) && ops[2] == Op(NoPolicy, b, z)
    ensures PolicyRule(Run(ops), b, x) == NoPolicy
  {
    var ss := SharedRun(ops[..2], b, b', x);
    RunIsWellFormed(ops[..2]);
    SharedBucketIsDropped(ss, b, z, x);
    RunLast(ops, Op(NoPolicy, b, z));
  }
}
