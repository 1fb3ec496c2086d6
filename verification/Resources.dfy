/** Names of buckets and object prefixes as policy resources. */
module Resources {
  import opened Wildcard

  const AWS_RESOURCE_PREFIX := "arn:aws:s3:::"

  /** A bucket name that policies can be set for: not empty, no '/', no '*'. */
  predicate ValidBucket(b: string) {
    b != "" && '/' !in b && '*' !in b
  }

  /** An object prefix that policies can be set for: no '*'. */
  predicate ValidPrefix(x: string) {
    '*' !in x
  }

  function BucketResource(b: string): string {
    AWS_RESOURCE_PREFIX + b
  }

  /** What every object resource of bucket b begins with. */
  function ObjectResourcePrefix(b: string): string {
    AWS_RESOURCE_PREFIX + b + "/"
  }

  function ObjectResource(b: string, x: string): string {
    ObjectResourcePrefix(b) + x + "*"
  }

  predicate IsBucketResource(r: string) {
    '/' !in r && '*' !in r
  }

  predicate IsObjectResource(r: string) {
    && AWS_RESOURCE_PREFIX <= r
    && '/' in r
    && r[|r| - 1] == '*'
    && '*' !in r[..|r| - 1]
  }

  lemma PrefixHasNoSpecials()
    ensures '/' !in AWS_RESOURCE_PREFIX && '*' !in AWS_RESOURCE_PREFIX
  {
  }

  lemma BucketResourceShape(b: string)
    requires ValidBucket(b)
    ensures IsBucketResource(BucketResource(b))
  {
    PrefixHasNoSpecials();
  }

  lemma ObjectResourceShape(b: string, x: string)
    requires ValidBucket(b) && ValidPrefix(x)
    ensures IsObjectResource(ObjectResource(b, x)) && ObjectResourcePrefix(b) <= ObjectResource(b, x)
    ensures !IsBucketResource(ObjectResource(b, x))
  {
    PrefixHasNoSpecials();
    var r := ObjectResource(b, x);
    assert r[|r| - 1] == '*';
    assert r[|AWS_RESOURCE_PREFIX + b|] == '/';
    assert r[..|r| - 1] == AWS_RESOURCE_PREFIX + b + "/" + x;
  }

  lemma KindsDiffer(r: string)
    requires IsObjectResource(r)
    ensures !IsBucketResource(r)
  {
  }

  /** No bucket resource is below the object resources of any bucket. */
  lemma BucketResourceIsNotBelow(r: string, b: string)
    requires IsBucketResource(r)
    ensures !(ObjectResourcePrefix(b) <= r)
  {
    var p := ObjectResourcePrefix(b);
    assert p[|p| - 1] == '/';
  }

  lemma BucketResourceInjective(b: string, b': string)
    requires BucketResource(b) == BucketResource(b')
    ensures b == b'
  {
    assert b == BucketResource(b)[|AWS_RESOURCE_PREFIX|..];
    assert b' == BucketResource(b')[|AWS_RESOURCE_PREFIX|..];
  }

  /** Two slash-free names followed by a slash can only be prefixes of one string when equal. */
  lemma SlashEndsName(p: string, b: string, b': string, r: string)
    requires '/' !in b && '/' !in b'
    requires p + b + "/" <= r && p + b' + "/" <= r
    ensures b == b'
  {
    SlashBoundsName(p, b, b', r);
    SlashBoundsName(p, b', b, r);
    assert (p + b + "/")[|p|..|p| + |b|] == b && (p + b' + "/")[|p|..|p| + |b|] == b';
  }

  lemma SlashBoundsName(p: string, b: string, b': string, r: string)
    requires '/' !in b'
    requires p + b + "/" <= r && p + b' + "/" <= r
    ensures |b'| <= |b|
  {
    assert (p + b + "/")[|p| + |b|] == '/';
    assert forall i :: 0 <= i < |b'| ==> (p + b' + "/")[|p| + i] == b'[i] && b'[i] in b';
  }

  lemma ObjectResourceInjective(b: string, x: string, b': string, x': string)
    requires ValidBucket(b) && ValidBucket(b')
    requires ObjectResource(b, x) == ObjectResource(b', x')
    ensures b == b' && x == x'
  {
    var r := ObjectResource(b, x);
    assert ObjectResourcePrefix(b) <= r;
    assert ObjectResourcePrefix(b') <= ObjectResource(b', x') == r;
    SlashEndsName(AWS_RESOURCE_PREFIX, b, b', r);
    var n := |ObjectResourcePrefix(b)|;
    assert x == r[n..|r| - 1] && x' == r[n..|r| - 1];
  }

  /** An object resource matches objects below b/x exactly when it is b/y* for a prefix y
      of x. */
  lemma MatchingResources(r: string, b: string, x: string)
    requires IsObjectResource(r) && ValidBucket(b) && ValidPrefix(x)
    ensures Matches(r, ObjectResource(b, x)) <==> IsPrefixResource(r, b, x)
  {
    var stem := r[..|r| - 1];
    assert r == stem + "*";
    PrefixPattern(stem, ObjectResource(b, x));
    if stem <= ObjectResource(b, x) {
      StemIsPrefix(stem, b, x);
    }
    if k :| 0 <= k <= |x| && r == ObjectResource(b, x[..k]) {
      PrefixIsStem(b, x, k);
    }
  }

  lemma PrefixIsStem(b: string, x: string, k: nat)
    requires k <= |x|
    ensures var r := ObjectResource(b, x[..k]); r[..|r| - 1] <= ObjectResource(b, x)
  {
    var r := ObjectResource(b, x[..k]);
    var op := ObjectResourcePrefix(b);
    assert r[..|r| - 1] == op + x[..k];
    assert x == x[..k] + x[k..];
    assert ObjectResource(b, x) == (op + x[..k]) + (x[k..] + "*");
  }

  lemma StemIsPrefix(stem: string, b: string, x: string)
    requires ValidBucket(b) && ValidPrefix(x)
    requires stem <= ObjectResource(b, x) && '*' !in stem && '/' in stem
    ensures IsPrefixResource(stem + "*", b, x)
  {
    StemIsBelow(stem, b, x);
    var op := ObjectResourcePrefix(b);
    var k := |stem| - |op|;
    assert ObjectResource(b, x) == (op + x[..k]) + (x[k..] + "*");
    assert stem == op + x[..k];
    assert stem + "*" == ObjectResource(b, x[..k]);
  }

  /** r names the prefix resource of some prefix of x. */
  ghost predicate IsPrefixResource(r: string, b: string, x: string) {
    exists k :: 0 <= k <= |x| && r == ObjectResource(b, x[..k])
  }

  /** A star-free stem with a slash that begins the resource b/x* lies between b/ and b/x. */
  lemma StemIsBelow(stem: string, b: string, x: string)
    requires ValidBucket(b) && ValidPrefix(x)
    requires stem <= ObjectResource(b, x) && '*' !in stem && '/' in stem
    ensures |ObjectResourcePrefix(b)| <= |stem| <= |ObjectResourcePrefix(b)| + |x|
  {
    PrefixHasNoSpecials();
    var head := AWS_RESOURCE_PREFIX + b;
    var target := ObjectResource(b, x);
    assert '/' !in head;
    assert target == head + ("/" + x + "*");
    var i :| 0 <= i < |stem| && stem[i] == '/';
    assert forall j :: 0 <= j < |head| ==> target[j] == head[j] && head[j] in head;
    assert forall j :: 0 <= j < |stem| ==> target[j] == stem[j] && stem[j] in stem;
    assert target[|target| - 1] == '*';
  }
}
