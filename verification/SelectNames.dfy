/**
 The headers of an S3 Select message by name: what the decoder's map holds is the value of the
 last header of a name, in any spelling of it.
*/
module SelectNames {
  import opened SelectHeaders
  import opened Wrappers

  function Lowered(s: string): string {
    seq(|s|, i requires 0 <= i < |s| => Lower(s[i]))
  }

  /** Two header names mean the same: the leading colon and the case of letters do not count. */
  predicate SameName(a: string, b: string) {
    Lowered(TrimColon(a)) == Lowered(TrimColon(b))
  }

  /** The value of the last header of that name. */
  function LastNamed(hs: seq<Header>, name: string): Option<string> {
    if hs == [] then None
    else
      var later := LastNamed(hs[1..], name);
      if later == None && SameName(hs[0].name, name) then Some(hs[0].value) else later
  }

  function ValueOf(hs: seq<Header>, name: string): string {
    var v := LastNamed(hs, name);
    if v == None then "" else v.value
  }

  predicate IsToken(s: string) {
    forall i :: 0 <= i < |s| ==> IsTokenChar(s[i])
  }

  lemma LowerFacts(c: char)
    ensures Lower(Upper(c)) == Lower(c) == Lower(Lower(c))
    ensures IsTokenChar(c) <==> IsTokenChar(Lower(c))
    ensures IsTokenChar(c) <==> IsTokenChar(Upper(c))
    ensures Lower(c) == '-' <==> c == '-'
    ensures Upper(Lower(c)) == Upper(c)
  {
  }

  lemma LoweredParts(s: string)
    requires s != ""
    ensures Lowered(s)[0] == Lower(s[0]) && Lowered(s)[1..] == Lowered(s[1..])
  {
  }

  lemma {:induction false} CapitalizedKeepsName(s: string, first: bool)
    ensures Lowered(Capitalized(s, first)) == Lowered(s)
    ensures IsToken(Capitalized(s, first)) <==> IsToken(s)
  {
    if s != "" {
      LowerFacts(s[0]);
      CapitalizedKeepsName(s[1..], s[0] == '-');
      LoweredParts(s);
      LoweredParts(Capitalized(s, first));
      SameParts(Lowered(s), Lowered(Capitalized(s, first)));
      TokenParts(s);
      TokenParts(Capitalized(s, first));
    }
  }

  lemma SameParts(s: string, t: string)
    requires s != "" && t != "" && s[0] == t[0] && s[1..] == t[1..]
    ensures s == t
  {
    assert s == [s[0]] + s[1..] && t == [t[0]] + t[1..];
  }

  lemma TokenParts(s: string)
    requires s != ""
    ensures IsToken(s) <==> IsTokenChar(s[0]) && IsToken(s[1..])
  {
    assert forall i :: 1 <= i < |s| ==> s[i] == s[1..][i - 1];
  }

  lemma LoweredToken(s: string)
    ensures IsToken(Lowered(s)) <==> IsToken(s)
  {
    forall i | 0 <= i < |s|
      ensures IsTokenChar(s[i]) <==> IsTokenChar(Lowered(s)[i])
    {
      LowerFacts(s[i]);
    }
  }

  lemma {:induction false} SameCapitals(a: string, b: string, first: bool)
    requires Lowered(a) == Lowered(b)
    ensures Capitalized(a, first) == Capitalized(b, first)
  {
    if a != "" && b != "" {
      LoweredParts(a);
      LoweredParts(b);
      LowerFacts(a[0]);
      LowerFacts(b[0]);
      SameCapitals(a[1..], b[1..], a[0] == '-');
    }
  }

  /** The keys of a header map do not distinguish upper and lower case, and nothing else. */
  lemma KeyIgnoresCase(a: string, b: string)
    requires IsToken(b)
    ensures CanonicalKey(a) == CanonicalKey(b) <==> Lowered(a) == Lowered(b)
  {
    CapitalizedKeepsName(a, true);
    CapitalizedKeepsName(b, true);
    LoweredToken(a);
    LoweredToken(b);
    if Lowered(a) == Lowered(b) {
      SameCapitals(a, b, true);
    }
  }

  /** The header map holds, under each name, the value of the last header of that name. */
  lemma {:induction false} LastHeaderCounts(hs: seq<Header>, m: HeaderMap, key: string)
    requires IsToken(key)
    ensures Get(HeadersOf(hs, m), key) == if LastNamed(hs, ":" + key) == None then Get(m, key) else ValueOf(hs, ":" + key)
    decreases |hs|
  {
    if hs != [] {
      var m1 := Put(m, hs[0].name, hs[0].value);
      LastHeaderCounts(hs[1..], m1, key);
      assert TrimColon(":" + key) == key;
      KeyIgnoresCase(TrimColon(hs[0].name), key);
    }
  }

  /** No header has that name. */
  predicate Lacks(hs: seq<Header>, name: string) {
    forall i :: 0 <= i < |hs| ==> !SameName(hs[i].name, name)
  }

  lemma {:induction false} LackedIsNone(hs: seq<Header>, name: string)
    requires Lacks(hs, name)
    ensures LastNamed(hs, name) == None
  {
    if hs != [] {
      LackedIsNone(hs[1..], name);
    }
  }

  /** A header counts wherever it stands, if none of its name follows. */
  lemma {:induction false} NamedCounts(hs: seq<Header>, name: string, v: string, tail: seq<Header>)
    requires Lacks(tail, name)
    ensures ValueOf(hs + [Header(name, v)] + tail, name) == v
    ensures LastNamed(hs + [Header(name, v)] + tail, name) == Some(v)
  {
    var all := hs + [Header(name, v)] + tail;
    if hs == [] {
      assert all[0] == Header(name, v) && all[1..] == tail;
      LackedIsNone(tail, name);
    } else {
      NamedCounts(hs[1..], name, v, tail);
      assert all[0] == hs[0] && all[1..] == hs[1..] + [Header(name, v)] + tail;
    }
  }

  // ----- different names -----

  lemma DifferInLength(a: string, b: string)
    requires a != "" && b != "" && a[0] == b[0] == ':' && |a| != |b|
    ensures !SameName(a, b)
  {
    assert |Lowered(a[1..])| == |a| - 1 && |Lowered(b[1..])| == |b| - 1;
  }

  lemma DifferAt(a: string, b: string, i: nat)
    requires 0 < i < |a| && i < |b| && a[0] == b[0] == ':' && Lower(a[i]) != Lower(b[i])
    ensures !SameName(a, b)
  {
    assert Lowered(a[1..])[i - 1] == Lower(a[i]) && Lowered(b[1..])[i - 1] == Lower(b[i]);
  }

  lemma TwoHeaders(n1: string, v1: string, n2: string, v2: string)
    requires !SameName(n2, n1)
    ensures var hs := [Header(n1, v1), Header(n2, v2)];
            ValueOf(hs, n1) == v1 && ValueOf(hs, n2) == v2
  {
    var hs := [Header(n1, v1), Header(n2, v2)];
    NamedCounts([], n1, v1, hs[1..]);
    NamedCounts(hs[..1], n2, v2, []);
    assert hs == [] + [Header(n1, v1)] + hs[1..];
    assert hs == hs[..1] + [Header(n2, v2)] + [];
  }

  lemma ThreeHeaders(n1: string, v1: string, n2: string, v2: string, n3: string, v3: string)
    requires !SameName(n2, n1) && !SameName(n3, n1) && !SameName(n3, n2)
    ensures var hs := [Header(n1, v1), Header(n2, v2), Header(n3, v3)];
            ValueOf(hs, n1) == v1 && ValueOf(hs, n2) == v2 && ValueOf(hs, n3) == v3
  {
    var hs := [Header(n1, v1), Header(n2, v2), Header(n3, v3)];
    NamedCounts([], n1, v1, hs[1..]);
    NamedCounts(hs[..1], n2, v2, hs[2..]);
    NamedCounts(hs[..2], n3, v3, []);
    assert hs == [] + [Header(n1, v1)] + hs[1..];
    assert hs == hs[..1] + [Header(n2, v2)] + hs[2..];
    assert hs == hs[..2] + [Header(n3, v3)] + [];
  }

  // ----- the names that the decoder looks up -----

  /** What the decoder looks up is what the message says under that name. */
  lemma LookupIsValue(hs: seq<Header>, key: string, name: string)
    requires IsToken(key) && name == ":" + key
    ensures Get(HeadersOf(hs, map[]), key) == ValueOf(hs, name)
  {
    LastHeaderCounts(hs, map[], key);
  }

  lemma MessageTypeIsNamed(hs: seq<Header>)
    ensures Get(HeadersOf(hs, map[]), "message-type") == ValueOf(hs, ":message-type")
  {
    MessageTypeIsToken();
    LookupIsValue(hs, "message-type", ":message-type");
  }

  lemma MessageTypeIsToken()
    ensures IsToken("message-type") && ":" + "message-type" == ":message-type"
  {
  }

  lemma EventTypeIsNamed(hs: seq<Header>)
    ensures Get(HeadersOf(hs, map[]), "event-type") == ValueOf(hs, ":event-type")
  {
    EventTypeIsToken();
    LookupIsValue(hs, "event-type", ":event-type");
  }

  lemma EventTypeIsToken()
    ensures IsToken("event-type") && ":" + "event-type" == ":event-type"
  {
  }

  lemma ContentTypeIsNamed(hs: seq<Header>)
    ensures Get(HeadersOf(hs, map[]), "content-type") == ValueOf(hs, ":content-type")
  {
    ContentTypeIsToken();
    LookupIsValue(hs, "content-type", ":content-type");
  }

  lemma ContentTypeIsToken()
    ensures IsToken("content-type") && ":" + "content-type" == ":content-type"
  {
  }

  lemma ErrorCodeIsNamed(hs: seq<Header>)
    ensures Get(HeadersOf(hs, map[]), "error-code") == ValueOf(hs, ":error-code")
  {
    ErrorCodeIsToken();
    LookupIsValue(hs, "error-code", ":error-code");
  }

  lemma ErrorCodeIsToken()
    ensures IsToken("error-code") && ":" + "error-code" == ":error-code"
  {
  }

  lemma ErrorMessageIsNamed(hs: seq<Header>)
    ensures Get(HeadersOf(hs, map[]), "error-message") == ValueOf(hs, ":error-message")
  {
    ErrorMessageIsToken();
    LookupIsValue(hs, "error-message", ":error-message");
  }

  lemma ErrorMessageIsToken()
    ensures IsToken("error-message") && ":" + "error-message" == ":error-message"
  {
  }
}
