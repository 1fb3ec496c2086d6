/**
 What `GetPolicy` returns, said in grants: for every list of statements, also of shapes that the
 library never builds, with denials, other principals and other conditions.
*/
module PolicyMeaning {
  import opened Conditions
  import opened Policy
  import opened PolicyGrants
  import opened PolicyRead
  import opened Resources
  import opened Wildcard
  import opened Wrappers

  // ----- one statement -----

  /** The statement lets everyone do all these actions on r, without a condition. */
  predicate GrantsAll(s: Statement, r: string, actions: set<Action>) {
    forall a :: a in actions ==> GrantedBy(s, r, a, Always)
  }

  /** The flags of an object statement are its grants on any of its resources. */
  lemma ObjectFlagsAreGrants(s: Statement, r: string)
    requires r in s.resources
    ensures GetObjectPolicy(s).readOnly <==> GrantedBy(s, r, GetObject, Always)
    ensures GetObjectPolicy(s).writeOnly
       <==> GrantsAll(s, r, {AbortMultipartUpload, DeleteObject, ListMultipartUploadParts, PutObject})
  {
    if GetObjectPolicy(s).readOnly {
      assert GetObject in READ_ONLY_OBJECT_ACTIONS;
    }
    if GrantsAll(s, r, WRITE_ONLY_OBJECT_ACTIONS) {
      assert GrantedBy(s, r, PutObject, Always);
    }
  }

  /** The statement lets everyone list r for all prefixes but those it names. */
  predicate ListsAllBut(s: Statement, r: string, x: string) {
    && r in s.resources && ListBucket in s.actions && s.effect == Allow && "*" in s.principal.aws
    && s.conditions != None
    && var c := s.conditions.value;
       && StringEquals !in c
       && StringNotEquals in c && S3Prefix in c[StringNotEquals] && x !in c[StringNotEquals][S3Prefix]
  }

  /** The statement lets everyone list r for prefix x: without a condition, or for the
      prefixes that it names, or for all but those. */
  predicate ListsFor(s: Statement, r: string, x: string) {
    || GrantedBy(s, r, ListBucket, Always)
    || (x != "" && (GrantedBy(s, r, ListBucket, ForPrefix(x)) || ListsAllBut(s, r, x)))
  }

  lemma BucketFlagsOfStatement(s: Statement, r: string, x: string)
    requires r in s.resources
    ensures GetBucketPolicy(s, x).common <==> GrantedBy(s, r, GetBucketLocation, Always)
    ensures GetBucketPolicy(s, x).writeOnly <==> GrantedBy(s, r, ListBucketMultipartUploads, Always)
    ensures GetBucketPolicy(s, x).readOnly <==> ListsFor(s, r, x)
  {
    assert COMMON_BUCKET_ACTIONS <= s.actions <==> GetBucketLocation in s.actions;
    assert READ_ONLY_BUCKET_ACTIONS <= s.actions <==> ListBucket in s.actions;
    assert WRITE_ONLY_BUCKET_ACTIONS <= s.actions <==> ListBucketMultipartUploads in s.actions;
  }

  // ----- a list -----

  /** A resource of s that speaks for the objects named by target: itself, or without it any
      pattern that matches. */
  predicate SpeaksFor(s: Statement, r: string, target: string) {
    r in s.resources && (r == target || (target !in s.resources && Matches(r, target)))
  }

  ghost predicate IsLongest(ss: seq<Statement>, r: string, target: string) {
    forall j, q :: 0 <= j < |ss| && SpeaksFor(ss[j], q, target) ==> |q| <= |r|
  }

  /** Some statement with a longest resource for the target grants all the actions on it. */
  ghost predicate LongestGrants(ss: seq<Statement>, target: string, actions: set<Action>) {
    exists i, r :: 0 <= i < |ss| && SpeaksFor(ss[i], r, target) && IsLongest(ss, r, target)
                   && GrantsAll(ss[i], r, actions)
  }

  ghost predicate SomeListsFor(ss: seq<Statement>, r: string, x: string) {
    exists i :: 0 <= i < |ss| && ListsFor(ss[i], r, x)
  }

  lemma MatchedSpeak(s: Statement, target: string, r: string)
    ensures r in MatchedResources(s, target) <==> SpeaksFor(s, r, target)
  {
  }

  lemma LongestBounds(ss: seq<Statement>, r: string, target: string)
    ensures IsLongest(ss, r, target) <==> Bounds(ss, target, |r|)
  {
    forall j, q | 0 <= j < |ss|
      ensures q in MatchedResources(ss[j], target) <==> SpeaksFor(ss[j], q, target)
    {
      MatchedSpeak(ss[j], target, q);
    }
  }

  /** A statement owns a longest resource exactly if one of its resources is a longest. */
  lemma OwnsLongestIff(ss: seq<Statement>, s: Statement, target: string)
    ensures OwnsLongest(ss, s, target) <==> exists r :: SpeaksFor(s, r, target) && IsLongest(ss, r, target)
  {
    if OwnsLongest(ss, s, target) {
      var n :| Owns(s, target, n) && Bounds(ss, target, n);
      var r :| r in MatchedResources(s, target) && |r| == n;
      MatchedSpeak(s, target, r);
      LongestBounds(ss, r, target);
    }
    if r :| SpeaksFor(s, r, target) && IsLongest(ss, r, target) {
      MatchedSpeak(s, target, r);
      LongestBounds(ss, r, target);
      assert Owns(s, target, |r|);
    }
  }

  lemma ObjectsGranted(ss: seq<Statement>, target: string)
    ensures ObjectReadOnly(ss, target) <==> LongestGrants(ss, target, {GetObject})
    ensures ObjectWriteOnly(ss, target)
       <==> LongestGrants(ss, target, {AbortMultipartUpload, DeleteObject, ListMultipartUploadParts, PutObject})
  {
    forall i | 0 <= i < |ss|
      ensures OwnsLongest(ss, ss[i], target) <==> exists r :: SpeaksFor(ss[i], r, target) && IsLongest(ss, r, target)
    {
      OwnsLongestIff(ss, ss[i], target);
    }
    forall i, r | 0 <= i < |ss| && SpeaksFor(ss[i], r, target)
      ensures GetObjectPolicy(ss[i]).readOnly <==> GrantsAll(ss[i], r, {GetObject})
      ensures GetObjectPolicy(ss[i]).writeOnly <==>
        GrantsAll(ss[i], r, {AbortMultipartUpload, DeleteObject, ListMultipartUploadParts, PutObject})
    {
      ObjectFlagsAreGrants(ss[i], r);
    }
  }

  lemma BucketGranted(ss: seq<Statement>, b: string, x: string)
    ensures BucketCommon(ss, b, x) <==> Granted(ss, BucketResource(b), GetBucketLocation, Always)
    ensures BucketWriteOnly(ss, b, x) <==> Granted(ss, BucketResource(b), ListBucketMultipartUploads, Always)
    ensures BucketReadOnly(ss, b, x) <==> SomeListsFor(ss, BucketResource(b), x)
  {
    var r := BucketResource(b);
    forall i | 0 <= i < |ss| && r in ss[i].resources
      ensures GetBucketPolicy(ss[i], x).common <==> GrantedBy(ss[i], r, GetBucketLocation, Always)
      ensures GetBucketPolicy(ss[i], x).writeOnly <==> GrantedBy(ss[i], r, ListBucketMultipartUploads, Always)
      ensures GetBucketPolicy(ss[i], x).readOnly <==> ListsFor(ss[i], r, x)
    {
      BucketFlagsOfStatement(ss[i], r, x);
    }
  }

  /** For every list of statements: a policy that can be read is returned exactly if everyone
      may ask for the bucket's location and list it for the prefix, and a statement with a
      longest resource for the prefix lets everyone get its objects; one that can be written,
      if everyone may ask for the location and list the uploads, and such a statement grants
      all of the writing actions. */
  lemma PolicyRuleByGrants(ss: seq<Statement>, b: string, x: string)
    ensures var p, r, target := PolicyRule(ss, b, x), BucketResource(b), ObjectResource(b, x);
            && (Readable(p) <==>
                  && Granted(ss, r, GetBucketLocation, Always)
                  && SomeListsFor(ss, r, x)
                  && LongestGrants(ss, target, {GetObject}))
            && (Writable(p) <==>
                  && Granted(ss, r, GetBucketLocation, Always)
                  && Granted(ss, r, ListBucketMultipartUploads, Always)
                  && LongestGrants(ss, target,
                                   {AbortMultipartUpload, DeleteObject, ListMultipartUploadParts, PutObject}))
  {
    BucketGranted(ss, b, x);
    ObjectsGranted(ss, ObjectResource(b, x));
  }
}
