/**
 Encoding query values: sorted keys, one `key=value` for each value, joined by `&`; and the
 proof that splitting and percent-decoding gives every list of values back.
*/
module QueryEncoding {
  import opened Sequences
  import opened UrlEncoding
  import opened Utf8
  import opened Wrappers

  type Values = map<Bytes, seq<Bytes>>

  const SLASH: Byte := '/' as nat
  const AMPERSAND: Byte := '&' as nat
  const EQUALS: Byte := '=' as nat

  /** strings.Replace of every slash by its triplet. */
  function PercentEncodeSlash(s: Bytes): Bytes {
    if s == [] then [] else EncodeSlash(s[0]) + PercentEncodeSlash(s[1..])
  }

  function EncodeSlash(b: Byte): Bytes {
    if b == SLASH then PercentByte(SLASH) else [b]
  }

  /** An encoded key or value. */
  function Component(s: Bytes): Bytes {
    PercentEncodeSlash(Encoded(s))
  }

  lemma {:induction false} SlashAppend(s: Bytes, t: Bytes)
    ensures PercentEncodeSlash(s + t) == PercentEncodeSlash(s) + PercentEncodeSlash(t)
  {
    if s == [] {
      assert s + t == t;
    } else {
      SlashAppend(s[1..], t);
      assert (s + t)[0] == s[0] && (s + t)[1..] == s[1..] + t;
      Associates(EncodeSlash(s[0]), PercentEncodeSlash(s[1..]), PercentEncodeSlash(t));
    }
  }

  lemma {:induction false} NoSlashIsKept(s: Bytes)
    requires forall i :: 0 <= i < |s| ==> s[i] != SLASH
    ensures PercentEncodeSlash(s) == s
  {
    if s != [] {
      NoSlashIsKept(s[1..]);
      assert s == [s[0]] + s[1..];
    }
  }

  lemma ComponentOne(r: nat, rest: Bytes)
    requires IsScalar(r)
    ensures PercentDecode(PercentEncodeSlash(EncodeOne(r)) + rest) == Prepend(EncodeRune(r), PercentDecode(rest))
  {
    if r == SLASH {
      assert PercentEncodeSlash([SLASH]) == PercentByte(SLASH);
      DecodeByte(SLASH, rest);
    } else {
      PercentChars(EncodeRune(r));
      NoSlashIsKept(EncodeOne(r));
      DecodeOne(r, rest);
    }
  }

  /** Replacing the slashes, too, changes nothing about what decoding gives. */
  lemma {:induction false} ComponentDecodes(s: Bytes)
    ensures PercentDecode(Component(s)) == Some(Repaired(s))
    decreases |s|
  {
    if s != [] {
      FirstRuneIsScalar(s);
      var rest := s[FirstWidth(s)..];
      SlashAppend(EncodeOne(FirstRune(s)), Encoded(rest));
      ComponentOne(FirstRune(s), Component(rest));
      ComponentDecodes(rest);
    }
  }

  predicate IsComponentChar(b: Byte) {
    IsEncodedChar(b) && b != SLASH
  }

  lemma {:induction false} SlashChars(s: Bytes)
    requires forall i :: 0 <= i < |s| ==> IsEncodedChar(s[i])
    ensures forall i :: 0 <= i < |PercentEncodeSlash(s)| ==> IsComponentChar(PercentEncodeSlash(s)[i])
  {
    if s != [] {
      SlashChars(s[1..]);
    }
  }

  /** No separator occurs in a component. */
  lemma ComponentChars(s: Bytes)
    ensures AMPERSAND !in Component(s) && EQUALS !in Component(s)
  {
    EncodedChars(s);
    SlashChars(Encoded(s));
  }

  // ----- sorted keys -----

  /** The order of sort.Strings. */
  predicate Less(a: Bytes, b: Bytes) {
    b != [] && (a == [] || a[0] < b[0] || (a[0] == b[0] && Less(a[1..], b[1..])))
  }

  /** The first i bytes agree, and at i a has the smaller one. */
  predicate SmallerAt(a: Bytes, b: Bytes, i: nat) {
    i < |a| && i < |b| && a[..i] == b[..i] && a[i] < b[i]
  }

  /** Ascending: a comes first if it is the beginning of b, or has the smaller byte where they
      first differ. */
  lemma {:induction false} LessIffSmaller(a: Bytes, b: Bytes)
    ensures Less(a, b) <==> (a <= b && a != b) || exists i: nat :: SmallerAt(a, b, i)
  {
    if a != [] && b != [] {
      if a[0] == b[0] {
        LessIffSmaller(a[1..], b[1..]);
        assert a == [a[0]] + a[1..] && b == [b[0]] + b[1..];
        assert a <= b <==> a[1..] <= b[1..];
        SmallerAtTail(a, b);
      } else {
        SmallerAtHead(a, b);
      }
    }
  }

  lemma SmallerAtTail(a: Bytes, b: Bytes)
    requires a != [] && b != [] && a[0] == b[0]
    ensures (exists i: nat :: SmallerAt(a, b, i)) <==> exists i: nat :: SmallerAt(a[1..], b[1..], i)
  {
    if i: nat :| SmallerAt(a, b, i) {
      assert a[1..][..i - 1] == a[..i][1..] && b[1..][..i - 1] == b[..i][1..];
      assert SmallerAt(a[1..], b[1..], i - 1);
    }
    if i: nat :| SmallerAt(a[1..], b[1..], i) {
      assert a[..i + 1] == [a[0]] + a[1..][..i] && b[..i + 1] == [b[0]] + b[1..][..i];
      assert SmallerAt(a, b, i + 1);
    }
  }

  lemma SmallerAtHead(a: Bytes, b: Bytes)
    requires a != [] && b != [] && a[0] != b[0]
    ensures a[0] < b[0] <==> exists i: nat :: SmallerAt(a, b, i)
  {
    if a[0] < b[0] {
      assert SmallerAt(a, b, 0);
    }
    forall i: nat | SmallerAt(a, b, i)
      ensures i == 0
    {
      SameBeginning(a, b, i);
    }
  }

  lemma SameBeginning(a: Bytes, b: Bytes, i: nat)
    requires i <= |a| && i <= |b| && a[..i] == b[..i]
    ensures i > 0 ==> a[0] == b[0]
  {
    assert i > 0 ==> a[..i][0] == a[0] && b[..i][0] == b[0];
  }

  /** In this order runes are in the order of their code points. */
  lemma RunesKeepOrder(r: nat, q: nat)
    requires IsScalar(r) && IsScalar(q) && r < q
    ensures Less(EncodeRune(r), EncodeRune(q))
  {
    var i := FirstDifference(r, q);
    SmallerIsLess(EncodeRune(r), EncodeRune(q), i);
  }

  lemma FirstDifference(r: nat, q: nat) returns (i: nat)
    requires IsScalar(r) && IsScalar(q) && r < q
    ensures var a, b := EncodeRune(r), EncodeRune(q);
            i < |a| && i < |b| && (forall j :: 0 <= j < i ==> a[j] == b[j]) && a[i] < b[i]
  {
    var a, b := EncodeRune(r), EncodeRune(q);
    i := if a[0] != b[0] then 0 else if a[1] != b[1] then 1 else if a[2] != b[2] then 2 else 3;
  }

  lemma SmallerIsLess(a: Bytes, b: Bytes, i: nat)
    requires i < |a| && i < |b| && (forall j :: 0 <= j < i ==> a[j] == b[j]) && a[i] < b[i]
    ensures Less(a, b)
  {
    LessIffSmaller(a, b);
    assert SmallerAt(a, b, i);
  }

  lemma {:induction false} LessIsTotal(a: Bytes, b: Bytes)
    ensures Less(a, b) || a == b || Less(b, a)
  {
    if a != [] && b != [] && a[0] == b[0] {
      LessIsTotal(a[1..], b[1..]);
      assert a == [a[0]] + a[1..] && b == [b[0]] + b[1..];
    }
  }

  lemma {:induction false} LessIsStrict(a: Bytes, b: Bytes)
    requires Less(a, b)
    ensures a != b && !Less(b, a)
  {
    if a != [] && a[0] == b[0] {
      LessIsStrict(a[1..], b[1..]);
    }
  }

  lemma {:induction false} LessIsTransitive(a: Bytes, b: Bytes, c: Bytes)
    requires Less(a, b) && Less(b, c)
    ensures Less(a, c)
  {
    if a != [] && a[0] == b[0] == c[0] {
      LessIsTransitive(a[1..], b[1..], c[1..]);
    }
  }

  predicate Increasing(ks: seq<Bytes>) {
    forall i, j :: 0 <= i < j < |ks| ==> Less(ks[i], ks[j])
  }

  /** ks lists a set of keys in order. */
  predicate Lists(ks: seq<Bytes>, keys: set<Bytes>) {
    Increasing(ks) && (forall i :: 0 <= i < |ks| ==> ks[i] in keys) && forall k :: k in keys ==> k in ks
  }

  lemma SameHead(ks: seq<Bytes>, ls: seq<Bytes>, keys: set<Bytes>)
    requires Lists(ks, keys) && Lists(ls, keys) && ks != []
    ensures ls != [] && ks[0] == ls[0]
  {
    assert ks[0] in ls;
    var j :| 0 <= j < |ls| && ls[j] == ks[0];
    assert ls[0] in ks;
    var i :| 0 <= i < |ks| && ks[i] == ls[0];
    if i > 0 && j > 0 {
      LessIsStrict(ks[0], ks[i]);
    }
  }

  lemma ListsTail(ks: seq<Bytes>, keys: set<Bytes>)
    requires Lists(ks, keys) && ks != []
    ensures Lists(ks[1..], keys - {ks[0]})
  {
    forall i | 1 <= i < |ks|
      ensures ks[i] != ks[0]
    {
      LessIsStrict(ks[0], ks[i]);
    }
    forall k | k in keys - {ks[0]}
      ensures k in ks[1..]
    {
      var i :| 0 <= i < |ks| && ks[i] == k;
      assert ks[1..][i - 1] == k;
    }
  }

  /** The order of the keys depends on nothing but the keys. */
  lemma {:induction false} OrderIsUnique(ks: seq<Bytes>, ls: seq<Bytes>, keys: set<Bytes>)
    requires Lists(ks, keys) && Lists(ls, keys)
    ensures ks == ls
    decreases |ks|
  {
    if ks == [] {
      if ls != [] {
        SameHead(ls, ks, keys);
      }
    } else {
      SameHead(ks, ls, keys);
      ListsTail(ks, keys);
      ListsTail(ls, keys);
      OrderIsUnique(ks[1..], ls[1..], keys - {ks[0]});
      assert ks == [ks[0]] + ks[1..] && ls == [ls[0]] + ls[1..];
    }
  }

  /** Insertion into an increasing list. */
  method Insert(k: Bytes, ks: seq<Bytes>, ghost keys: set<Bytes>) returns (ls: seq<Bytes>)
    requires Lists(ks, keys) && k !in keys
    ensures Lists(ls, keys + {k})
  {
    var i := 0;
    while i < |ks| && Less(ks[i], k)
      invariant 0 <= i <= |ks|
      invariant forall j :: 0 <= j < i ==> Less(ks[j], k)
    {
      i := i + 1;
    }
    forall j | i <= j < |ks|
      ensures Less(k, ks[j])
    {
      LessIsTotal(ks[i], k);
      if j > i {
        LessIsTransitive(k, ks[i], ks[j]);
      }
    }
    InsertedLists(ks, i, k, keys);
    ls := ks[..i] + [k] + ks[i..];
  }

  lemma InsertedLists(ks: seq<Bytes>, i: nat, k: Bytes, keys: set<Bytes>)
    requires Lists(ks, keys) && k !in keys && i <= |ks|
    requires forall j :: 0 <= j < i ==> Less(ks[j], k)
    requires forall j :: i <= j < |ks| ==> Less(k, ks[j])
    ensures Lists(ks[..i] + [k] + ks[i..], keys + {k})
  {
    InsertedIncreases(ks, i, k);
    forall l | l in keys + {k}
      ensures l in ks[..i] + [k] + ks[i..]
    {
      InsertedIsIn(ks, i, k, l);
    }
  }

  lemma InsertedIncreases(ks: seq<Bytes>, i: nat, k: Bytes)
    requires Increasing(ks) && i <= |ks|
    requires forall j :: 0 <= j < i ==> Less(ks[j], k)
    requires forall j :: i <= j < |ks| ==> Less(k, ks[j])
    ensures Increasing(ks[..i] + [k] + ks[i..])
  {
  }

  lemma InsertedIsIn(ks: seq<Bytes>, i: nat, k: Bytes, l: Bytes)
    requires i <= |ks| && (l == k || l in ks)
    ensures l in ks[..i] + [k] + ks[i..]
  {
    var ls := ks[..i] + [k] + ks[i..];
    if l == k {
      assert ls[i] == k;
    } else {
      var j :| 0 <= j < |ks| && ks[j] == l;
      assert ls[if j < i then j else j + 1] == l;
    }
  }

  /** The map's keys, met in any order, and sorted. */
  method SortedKeys(v: Values) returns (ks: seq<Bytes>)
    ensures Lists(ks, v.Keys)
  {
    ks := [];
    var left := v.Keys;
    while left != {}
      invariant left <= v.Keys && Lists(ks, v.Keys - left)
      decreases |left|
    {
      var k :| k in left;
      ks := Insert(k, ks, v.Keys - left);
      left := left - {k};
      assert v.Keys - left == (v.Keys - left - {k}) + {k};
    }
    assert v.Keys - left == v.Keys;
  }

  // ----- the query string -----

  function KeyPairs(k: Bytes, vs: seq<Bytes>): seq<(Bytes, Bytes)> {
    if vs == [] then [] else [(k, vs[0])] + KeyPairs(k, vs[1..])
  }

  function PairsOf(ks: seq<Bytes>, v: Values): seq<(Bytes, Bytes)>
    requires forall i :: 0 <= i < |ks| ==> ks[i] in v
  {
    if ks == [] then [] else KeyPairs(ks[0], v[ks[0]]) + PairsOf(ks[1..], v)
  }

  function PairString(p: (Bytes, Bytes)): Bytes {
    Component(p.0) + [EQUALS] + Component(p.1)
  }

  function Joined(ps: seq<(Bytes, Bytes)>): Bytes {
    if ps == [] then []
    else if |ps| == 1 then PairString(ps[0])
    else PairString(ps[0]) + ([AMPERSAND] + Joined(ps[1..]))
  }

  lemma {:induction false} JoinedAppend(ps: seq<(Bytes, Bytes)>, p: (Bytes, Bytes))
    ensures Joined(ps + [p]) == if ps == [] then PairString(p) else (Joined(ps) + [AMPERSAND]) + PairString(p)
    ensures ps != [] ==> Joined(ps) != []
  {
    if ps == [] {
      assert ps + [p] == [p];
    } else {
      JoinedAppend(ps[1..], p);
      assert (ps + [p])[0] == ps[0] && (ps + [p])[1..] == ps[1..] + [p];
      JoinedTail(PairString(ps[0]), Joined(ps[1..]), PairString(p));
      if |ps| == 1 {
        assert ps[1..] == [];
      }
    }
  }

  lemma JoinedTail(a: Bytes, b: Bytes, c: Bytes)
    ensures a + ([AMPERSAND] + ((b + [AMPERSAND]) + c)) == ((a + ([AMPERSAND] + b)) + [AMPERSAND]) + c
    ensures a + ([AMPERSAND] + c) == (a + [AMPERSAND]) + c
  {
  }

  lemma {:induction false} KeyPairsAppend(k: Bytes, vs: seq<Bytes>, v: Bytes)
    ensures KeyPairs(k, vs + [v]) == KeyPairs(k, vs) + [(k, v)]
  {
    if vs == [] {
      assert vs + [v] == [v];
    } else {
      KeyPairsAppend(k, vs[1..], v);
      assert (vs + [v])[0] == vs[0] && (vs + [v])[1..] == vs[1..] + [v];
    }
  }

  lemma {:induction false} PairsAppend(ks: seq<Bytes>, k: Bytes, v: Values)
    requires k in v && forall i :: 0 <= i < |ks| ==> ks[i] in v
    ensures PairsOf(ks + [k], v) == PairsOf(ks, v) + KeyPairs(k, v[k])
  {
    if ks == [] {
      assert ks + [k] == [k];
      assert PairsOf([k], v) == KeyPairs(k, v[k]) + PairsOf([], v);
    } else {
      PairsAppend(ks[1..], k, v);
      assert (ks + [k])[0] == ks[0] && (ks + [k])[1..] == ks[1..] + [k];
      Associates(KeyPairs(ks[0], v[ks[0]]), PairsOf(ks[1..], v), KeyPairs(k, v[k]));
    }
  }

  /** One value of a key, behind what was written for the pairs ps. */
  method WriteValue(buf: Bytes, prefix: Bytes, k: Bytes, v: Bytes, ghost ps: seq<(Bytes, Bytes)>) returns (out: Bytes)
    requires buf == Joined(ps) && prefix == Component(k) + [EQUALS]
    ensures out == Joined(ps + [(k, v)])
  {
    JoinedAppend(ps, (k, v));
    out := buf;
    if |out| > 0 {
      out := out + [AMPERSAND];
    }
    var value := EncodePath(v);
    Associates(out, prefix, PercentEncodeSlash(value));
    assert out == [] ==> out + prefix == prefix;
    out := out + prefix + PercentEncodeSlash(value);
  }

  lemma KeyStep(ps: seq<(Bytes, Bytes)>, k: Bytes, vs: seq<Bytes>, i: nat)
    requires i < |vs|
    ensures ps + KeyPairs(k, vs[..i + 1]) == (ps + KeyPairs(k, vs[..i])) + [(k, vs[i])]
  {
    assert vs[..i + 1] == vs[..i] + [vs[i]];
    KeyPairsAppend(k, vs[..i], vs[i]);
  }

  /** The inner loop: one key's values. */
  method WriteKey(buf: Bytes, k: Bytes, vs: seq<Bytes>, ghost ps: seq<(Bytes, Bytes)>) returns (out: Bytes)
    requires buf == Joined(ps)
    ensures out == Joined(ps + KeyPairs(k, vs))
  {
    out := buf;
    var encodedKey := EncodePath(k);
    var prefix := PercentEncodeSlash(encodedKey) + [EQUALS];
    var i := 0;
    assert ps + KeyPairs(k, vs[..0]) == ps;
    while i < |vs|
      invariant 0 <= i <= |vs|
      invariant out == Joined(ps + KeyPairs(k, vs[..i]))
    {
      KeyStep(ps, k, vs, i);
      out := WriteValue(out, prefix, k, vs[i], ps + KeyPairs(k, vs[..i]));
      i := i + 1;
    }
    assert vs[..i] == vs;
  }

  lemma PairsStep(keys: seq<Bytes>, i: nat, v: Values)
    requires i < |keys| && forall j :: 0 <= j < |keys| ==> keys[j] in v
    ensures PairsOf(keys[..i + 1], v) == PairsOf(keys[..i], v) + KeyPairs(keys[i], v[keys[i]])
  {
    assert keys[..i + 1] == keys[..i] + [keys[i]];
    PairsAppend(keys[..i], keys[i], v);
  }

  /** The loop over the keys. */
  method WriteKeys(keys: seq<Bytes>, v: Values) returns (query: Bytes)
    requires forall i :: 0 <= i < |keys| ==> keys[i] in v
    ensures query == Joined(PairsOf(keys, v))
  {
    query := [];
    var i := 0;
    while i < |keys|
      invariant 0 <= i <= |keys|
      invariant query == Joined(PairsOf(keys[..i], v))
    {
      PairsStep(keys, i, v);
      query := WriteKey(query, keys[i], v[keys[i]], PairsOf(keys[..i], v));
      i := i + 1;
    }
    assert keys[..i] == keys;
  }

  /** QueryEncode; None is a nil map. The result is that of the map's one sorted key list. */
  method QueryEncode(v: Option<Values>) returns (query: Bytes)
    ensures v == None ==> query == []
    ensures v.Some? ==> exists ks :: Lists(ks, v.value.Keys)
    ensures v.Some? ==> forall ks :: Lists(ks, v.value.Keys) ==> query == Joined(PairsOf(ks, v.value))
  {
    if v == None {
      return [];
    }
    var m := v.value;
    var keys := SortedKeys(m);
    assert Lists(keys, m.Keys);
    query := WriteKeys(keys, m);
    forall ks | Lists(ks, m.Keys)
      ensures query == Joined(PairsOf(ks, m))
    {
      OrderIsUnique(ks, keys, m.Keys);
    }
  }

  // ----- reading a query string -----

  /** The first place of c in s, or the end. */
  function Find(s: Bytes, c: Byte): (i: nat)
    ensures i <= |s| && (forall j :: 0 <= j < i ==> s[j] != c) && (i < |s| ==> s[i] == c)
  {
    if s == [] || s[0] == c then 0 else 1 + Find(s[1..], c)
  }

  /** key=value, split at the first equals sign and decoded. */
  function ParsePair(s: Bytes): Option<(Bytes, Bytes)> {
    var i := Find(s, EQUALS);
    if i == |s| then None
    else
      match (PercentDecode(s[..i]), PercentDecode(s[i + 1..]))
      case (Some(k), Some(v)) => Some((k, v))
      case _ => None
  }

  function ParsePairs(s: Bytes): Option<seq<(Bytes, Bytes)>>
    decreases |s|
  {
    var i := Find(s, AMPERSAND);
    match ParsePair(s[..i])
    case None => None
    case Some(p) =>
      if i == |s| then Some([p])
      else
        match ParsePairs(s[i + 1..])
        case None => None
        case Some(ps) => Some([p] + ps)
  }

  function ParseQuery(s: Bytes): Option<seq<(Bytes, Bytes)>> {
    if s == [] then Some([]) else ParsePairs(s)
  }

  function RepairedPairs(ps: seq<(Bytes, Bytes)>): seq<(Bytes, Bytes)> {
    if ps == [] then [] else [(Repaired(ps[0].0), Repaired(ps[0].1))] + RepairedPairs(ps[1..])
  }

  lemma FindIs(a: Bytes, c: Byte, rest: Bytes)
    requires c !in a
    ensures Find(a + [c] + rest, c) == |a| && Find(a, c) == |a|
  {
    var s := a + [c] + rest;
    assert s[|a|] == c && forall j :: 0 <= j < |a| ==> s[j] == a[j];
  }

  lemma ParsePairString(p: (Bytes, Bytes))
    ensures AMPERSAND !in PairString(p)
    ensures ParsePair(PairString(p)) == Some((Repaired(p.0), Repaired(p.1)))
  {
    var a, b := Component(p.0), Component(p.1);
    ComponentChars(p.0);
    ComponentChars(p.1);
    FindIs(a, EQUALS, b);
    assert (a + [EQUALS] + b)[..|a|] == a && (a + [EQUALS] + b)[|a| + 1..] == b;
    ComponentDecodes(p.0);
    ComponentDecodes(p.1);
  }

  lemma ParsePairsStep(first: Bytes, p: (Bytes, Bytes), rest: Bytes, ps: seq<(Bytes, Bytes)>)
    requires AMPERSAND !in first && ParsePair(first) == Some(p)
    ensures ParsePairs(first) == Some([p])
    ensures ParsePairs(rest) == Some(ps) ==> ParsePairs(first + ([AMPERSAND] + rest)) == Some([p] + ps)
  {
    FindIs(first, AMPERSAND, rest);
    var s := first + ([AMPERSAND] + rest);
    assert s == first + [AMPERSAND] + rest && first[..|first|] == first;
    assert s[..|first|] == first && s[|first| + 1..] == rest;
  }

  /** Every pair is found again, in order. */
  lemma {:induction false} ParseJoined(ps: seq<(Bytes, Bytes)>)
    ensures ParseQuery(Joined(ps)) == Some(RepairedPairs(ps))
    ensures ps != [] ==> Joined(ps) != []
    decreases |ps|
  {
    if ps != [] {
      var p := (Repaired(ps[0].0), Repaired(ps[0].1));
      ParsePairString(ps[0]);
      ParseJoined(ps[1..]);
      ParsePairsStep(PairString(ps[0]), p, Joined(ps[1..]), RepairedPairs(ps[1..]));
      if |ps| == 1 {
        assert ps[1..] == [];
        assert [p] + [] == [p];
      }
    }
  }

  /** The values listed for a key, in order. */
  function ListFor(ps: seq<(Bytes, Bytes)>, k: Bytes): seq<Bytes> {
    if ps == [] then [] else (if ps[0].0 == k then [ps[0].1] else []) + ListFor(ps[1..], k)
  }

  lemma {:induction false} ListForAppend(ps: seq<(Bytes, Bytes)>, qs: seq<(Bytes, Bytes)>, k: Bytes)
    ensures ListFor(ps + qs, k) == ListFor(ps, k) + ListFor(qs, k)
  {
    if ps == [] {
      assert ps + qs == qs;
    } else {
      ListForAppend(ps[1..], qs, k);
      Associates(if ps[0].0 == k then [ps[0].1] else [], ListFor(ps[1..], k), ListFor(qs, k));
      assert (ps + qs)[0] == ps[0] && (ps + qs)[1..] == ps[1..] + qs;
    }
  }

  lemma {:induction false} ListForKey(l: Bytes, vs: seq<Bytes>, k: Bytes)
    ensures ListFor(KeyPairs(l, vs), k) == if k == l then vs else []
  {
    if vs != [] {
      ListForKey(l, vs[1..], k);
      assert vs == [vs[0]] + vs[1..];
    }
  }

  lemma {:induction false} ListForPairs(ks: seq<Bytes>, v: Values, k: Bytes)
    requires Increasing(ks) && forall i :: 0 <= i < |ks| ==> ks[i] in v
    ensures ListFor(PairsOf(ks, v), k) == if k in ks then v[k] else []
  {
    if ks != [] {
      ListForAppend(KeyPairs(ks[0], v[ks[0]]), PairsOf(ks[1..], v), k);
      ListForKey(ks[0], v[ks[0]], k);
      ListForPairs(ks[1..], v, k);
      if ks[0] in ks[1..] {
        LessIsStrict(ks[0], ks[0]);
      }
    }
  }

  ghost predicate ValidPairs(ps: seq<(Bytes, Bytes)>) {
    forall i :: 0 <= i < |ps| ==> IsValid(ps[i].0) && IsValid(ps[i].1)
  }

  ghost predicate ValidValues(v: Values) {
    forall k :: k in v ==> IsValid(k) && forall i :: 0 <= i < |v[k]| ==> IsValid(v[k][i])
  }

  lemma {:induction false} ValidPairsAreKept(ps: seq<(Bytes, Bytes)>)
    requires ValidPairs(ps)
    ensures RepairedPairs(ps) == ps
  {
    if ps != [] {
      KeptIffValid(ps[0].0);
      KeptIffValid(ps[0].1);
      ValidPairsAreKept(ps[1..]);
      assert ps == [ps[0]] + ps[1..];
    }
  }

  lemma {:induction false} KeyPairsAreValid(k: Bytes, vs: seq<Bytes>)
    requires IsValid(k) && forall i :: 0 <= i < |vs| ==> IsValid(vs[i])
    ensures ValidPairs(KeyPairs(k, vs))
  {
    if vs != [] {
      KeyPairsAreValid(k, vs[1..]);
    }
  }

  lemma {:induction false} PairsAreValid(ks: seq<Bytes>, v: Values)
    requires ValidValues(v) && forall i :: 0 <= i < |ks| ==> ks[i] in v
    ensures ValidPairs(PairsOf(ks, v))
  {
    if ks != [] {
      KeyPairsAreValid(ks[0], v[ks[0]]);
      PairsAreValid(ks[1..], v);
    }
  }

  /** Reading the query string of valid UTF-8 keys and values gives every key's list of values
      in order, and nothing for other keys. */
  lemma QueryRoundTrip(ks: seq<Bytes>, v: Values)
    requires Lists(ks, v.Keys) && ValidValues(v)
    ensures var parsed := ParseQuery(Joined(PairsOf(ks, v)));
            && parsed.Some?
            && forall k :: ListFor(parsed.value, k) == if k in v then v[k] else []
  {
    var ps := PairsOf(ks, v);
    ParseJoined(ps);
    PairsAreValid(ks, v);
    ValidPairsAreKept(ps);
    forall k
      ensures ListFor(ps, k) == if k in v then v[k] else []
    {
      ListForPairs(ks, v, k);
    }
  }
}
