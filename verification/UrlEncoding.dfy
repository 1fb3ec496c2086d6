/**
 Percent-encoding of paths: the loop over the runes of a string, its shortcut, and the inverse,
 percent-decoding as section 2.1 of RFC 3986 defines it. Strings are sequences of bytes.
*/
module UrlEncoding {
  import opened Sequences
  import opened Utf8
  import opened Wrappers

  // ----- EncodePath -----

  /** The unreserved characters of section 2.3 of RFC 3986, and the slash. */
  predicate IsPathChar(r: nat) {
    || 'A' as nat <= r <= 'Z' as nat || 'a' as nat <= r <= 'z' as nat || '0' as nat <= r <= '9' as nat
    || r == '-' as nat || r == '_' as nat || r == '.' as nat || r == '~' as nat || r == '/' as nat
  }

  const PERCENT: Byte := '%' as nat

  function HexDigit(d: nat): Byte
    requires d < 16
  {
    if d < 10 then '0' as nat + d else 'A' as nat + (d - 10)
  }

  function PercentByte(b: Byte): Bytes {
    [PERCENT, HexDigit(b / 16), HexDigit(b % 16)]
  }

  function Percent(u: Bytes): Bytes {
    if u == [] then [] else PercentByte(u[0]) + Percent(u[1..])
  }

  function EncodeOne(r: nat): Bytes
    requires IsScalar(r)
  {
    if IsPathChar(r) then [r] else Percent(EncodeRune(r))
  }

  /** The runes of s, each encoded. */
  function Encoded(s: Bytes): Bytes
    decreases |s|
  {
    if s == [] then []
    else
      FirstRuneIsScalar(s);
      EncodeOne(FirstRune(s)) + Encoded(s[FirstWidth(s)..])
  }

  /** The regular expression in front of the loop: only path characters, and at least one. */
  predicate MatchesReserved(s: Bytes) {
    s != [] && forall i :: 0 <= i < |s| ==> IsPathChar(s[i])
  }

  lemma {:induction false} PercentAppend(u: Bytes, v: Bytes)
    ensures Percent(u + v) == Percent(u) + Percent(v)
  {
    if u == [] {
      assert u + v == v;
    } else {
      PercentAppend(u[1..], v);
      assert (u + v)[0] == u[0] && (u + v)[1..] == u[1..] + v;
      Associates(PercentByte(u[0]), Percent(u[1..]), Percent(v));
    }
  }

  /** The shortcut agrees with the loop. */
  lemma {:induction false} ReservedIsKept(s: Bytes)
    requires forall i :: 0 <= i < |s| ==> IsPathChar(s[i])
    ensures Encoded(s) == s
    decreases |s|
  {
    if s != [] {
      ReservedIsKept(s[1..]);
      assert s == [s[0]] + s[1..];
    }
  }

  /** The inner loop: the bytes of one rune. */
  method EncodeBytes(u: Bytes) returns (encoded: Bytes)
    ensures encoded == Percent(u)
  {
    encoded := [];
    var i := 0;
    while i < |u|
      invariant 0 <= i <= |u|
      invariant encoded == Percent(u[..i])
    {
      assert u[..i + 1] == u[..i] + [u[i]];
      PercentAppend(u[..i], [u[i]]);
      encoded := encoded + PercentByte(u[i]);
      i := i + 1;
    }
    assert u[..i] == u;
  }

  /** One rune of the loop. A rune that cannot be encoded does not come out of a string. */
  method EncodeFirst(r: nat) returns (one: Bytes)
    requires IsScalar(r)
    ensures one == EncodeOne(r)
  {
    if IsPathChar(r) {
      one := [r];
    } else {
      if RuneLen(r) < 0 {
        assert false;
      }
      one := EncodeBytes(EncodeRune(r));
    }
  }

  lemma EncodedStep(before: Bytes, s: Bytes)
    requires s != []
    ensures IsScalar(FirstRune(s))
    ensures (before + EncodeOne(FirstRune(s))) + Encoded(s[FirstWidth(s)..]) == before + Encoded(s)
  {
    FirstRuneIsScalar(s);
    Associates(before, EncodeOne(FirstRune(s)), Encoded(s[FirstWidth(s)..]));
  }

  method EncodePath(s: Bytes) returns (encoded: Bytes)
    ensures encoded == Encoded(s)
  {
    if MatchesReserved(s) {
      ReservedIsKept(s);
      return s;
    }
    encoded := [];
    var rest := s;
    while rest != []
      invariant encoded + Encoded(rest) == Encoded(s)
      decreases |rest|
    {
      EncodedStep(encoded, rest);
      var one := EncodeFirst(FirstRune(rest));
      encoded := encoded + one;
      rest := rest[FirstWidth(rest)..];
    }
  }

  // ----- the alphabet -----

  const HEX_DIGITS := "0123456789ABCDEF"

  /** Letters, digits and these five characters stand for themselves. */
  predicate IsKept(c: nat) {
    || 'A' as nat <= c <= 'Z' as nat || 'a' as nat <= c <= 'z' as nat || '0' as nat <= c <= '9' as nat
    || exists i :: 0 <= i < 5 && c == "-_.~/"[i] as nat
  }

  lemma HexDigitIs(d: nat)
    requires d < 16
    ensures HexDigit(d) == HEX_DIGITS[d] as nat
  {
  }

  /** A one-byte string is kept, or becomes a triplet with upper-case digits. */
  lemma EncodedByte(c: Byte)
    requires c < 0x80
    ensures Encoded([c])
         == if IsKept(c) then [c] else [PERCENT, HEX_DIGITS[c / 16] as nat, HEX_DIGITS[c % 16] as nat]
  {
    HexDigitIs(c / 16);
    HexDigitIs(c % 16);
    var s: Bytes := [c];
    assert s[FirstWidth(s)..] == [];
    assert Encoded(s) == EncodeOne(c) + [];
    assert "-_.~/"[0] == '-' && "-_.~/"[1] == '_' && "-_.~/"[2] == '.' && "-_.~/"[3] == '~' && "-_.~/"[4] == '/';
    assert Percent([c]) == PercentByte(c) + [];
  }

  /** A byte that begins no rune becomes the encoding of U+FFFD. */
  lemma EncodedInvalidByte(c: Byte)
    requires c >= 0x80
    ensures Encoded([c]) == Percent([0xEF, 0xBF, 0xBD])
  {
    var s: Bytes := [c];
    assert s[FirstWidth(s)..] == [];
    assert Encoded(s) == EncodeOne(0xFFFD) + [];
  }

  /** A triplet begins at i, with upper-case digits. */
  predicate IsTriplet(s: Bytes, i: nat) {
    && i + 2 < |s| && s[i] == PERCENT
    && (exists d :: 0 <= d < 16 && s[i + 1] == HEX_DIGITS[d] as nat)
    && (exists d :: 0 <= d < 16 && s[i + 2] == HEX_DIGITS[d] as nat)
  }

  predicate OnlyTriplets(s: Bytes) {
    forall i :: 0 <= i < |s| ==> if s[i] == PERCENT then IsTriplet(s, i) else IsKept(s[i])
  }

  lemma OnlyTripletsConcat(s: Bytes, t: Bytes)
    requires OnlyTriplets(s) && OnlyTriplets(t)
    ensures OnlyTriplets(s + t)
  {
    var u := s + t;
    forall i | 0 <= i < |u|
      ensures if u[i] == PERCENT then IsTriplet(u, i) else IsKept(u[i])
    {
      if i < |s| {
        assert if s[i] == PERCENT then IsTriplet(s, i) else IsKept(s[i]);
      } else {
        assert t[i - |s|] == u[i];
        assert if t[i - |s|] == PERCENT then IsTriplet(t, i - |s|) else IsKept(t[i - |s|]);
      }
    }
  }

  lemma ByteIsTriplet(b: Byte)
    ensures OnlyTriplets(PercentByte(b))
  {
    HexDigitIs(b / 16);
    HexDigitIs(b % 16);
    var s := PercentByte(b);
    assert IsTriplet(s, 0);
  }

  lemma {:induction false} PercentIsTriplets(u: Bytes)
    ensures OnlyTriplets(Percent(u))
  {
    if u != [] {
      ByteIsTriplet(u[0]);
      PercentIsTriplets(u[1..]);
      OnlyTripletsConcat(PercentByte(u[0]), Percent(u[1..]));
    }
  }

  /** What EncodePath gives consists of triplets with upper-case digits and of characters that
      stand for themselves. */
  lemma {:induction false} EncodedIsTriplets(s: Bytes)
    ensures OnlyTriplets(Encoded(s))
    decreases |s|
  {
    if s != [] {
      FirstRuneIsScalar(s);
      var r := FirstRune(s);
      PercentIsTriplets(EncodeRune(r));
      assert "-_.~/"[0] == '-' && "-_.~/"[1] == '_' && "-_.~/"[2] == '.' && "-_.~/"[3] == '~' && "-_.~/"[4] == '/';
      EncodedIsTriplets(s[FirstWidth(s)..]);
      OnlyTripletsConcat(EncodeOne(r), Encoded(s[FirstWidth(s)..]));
    }
  }

  // ----- percent-decoding -----

  function HexValue(c: Byte): Option<nat> {
    if '0' as nat <= c <= '9' as nat then Some(c - '0' as nat)
    else if 'A' as nat <= c <= 'F' as nat then Some(10 + c - 'A' as nat)
    else if 'a' as nat <= c <= 'f' as nat then Some(10 + c - 'a' as nat)
    else None
  }

  function Prepend(u: Bytes, o: Option<Bytes>): Option<Bytes> {
    match o
    case None => None
    case Some(s) => Some(u + s)
  }

  predicate StartsTriplet(s: Bytes) {
    |s| >= 3 && s[0] == PERCENT && HexValue(s[1]).Some? && HexValue(s[2]).Some?
  }

  function TripletValue(s: Bytes): Byte
    requires StartsTriplet(s)
  {
    HexValue(s[1]).value * 16 + HexValue(s[2]).value
  }

  /** Every triplet stands for its byte, every other byte but a percent sign for itself. */
  function PercentDecode(s: Bytes): Option<Bytes> {
    if s == [] then Some([])
    else if StartsTriplet(s) then Prepend([TripletValue(s)], PercentDecode(s[3..]))
    else if s[0] == PERCENT then None
    else Prepend([s[0]], PercentDecode(s[1..]))
  }

  lemma DecodeByte(b: Byte, rest: Bytes)
    ensures PercentDecode(PercentByte(b) + rest) == Prepend([b], PercentDecode(rest))
  {
    var s := PercentByte(b) + rest;
    assert StartsTriplet(s) && TripletValue(s) == b / 16 * 16 + b % 16;
    assert s[3..] == rest;
  }

  lemma PrependAppends(u: Bytes, v: Bytes, o: Option<Bytes>)
    ensures Prepend(u, Prepend(v, o)) == Prepend(u + v, o)
  {
    if o.Some? {
      assert u + (v + o.value) == (u + v) + o.value;
    }
  }

  lemma PrependNothing(o: Option<Bytes>)
    ensures Prepend([], o) == o
  {
    if o.Some? {
      assert [] + o.value == o.value;
    }
  }

  lemma {:induction false} DecodePercent(u: Bytes, rest: Bytes)
    ensures PercentDecode(Percent(u) + rest) == Prepend(u, PercentDecode(rest))
  {
    if u == [] {
      assert Percent(u) + rest == rest;
      PrependNothing(PercentDecode(rest));
    } else {
      assert Percent(u) + rest == PercentByte(u[0]) + (Percent(u[1..]) + rest);
      DecodeByte(u[0], Percent(u[1..]) + rest);
      DecodePercent(u[1..], rest);
      PrependAppends([u[0]], u[1..], PercentDecode(rest));
      assert [u[0]] + u[1..] == u;
    }
  }

  lemma DecodeOne(r: nat, rest: Bytes)
    requires IsScalar(r)
    ensures PercentDecode(EncodeOne(r) + rest) == Prepend(EncodeRune(r), PercentDecode(rest))
  {
    if IsPathChar(r) {
      assert (EncodeOne(r) + rest)[1..] == rest;
    } else {
      DecodePercent(EncodeRune(r), rest);
    }
  }

  /** Decoding what EncodePath gives returns the string, with each byte that is not part of
      valid UTF-8 replaced by the encoding of U+FFFD. */
  lemma {:induction false} DecodeEncoded(s: Bytes)
    ensures PercentDecode(Encoded(s)) == Some(Repaired(s))
    decreases |s|
  {
    if s != [] {
      FirstRuneIsScalar(s);
      var rest := s[FirstWidth(s)..];
      DecodeOne(FirstRune(s), Encoded(rest));
      DecodeEncoded(rest);
    }
  }

  /** EncodePath is inverted by percent-decoding exactly on valid UTF-8. */
  lemma InverseIffValid(s: Bytes)
    ensures PercentDecode(Encoded(s)) == Some(s) <==> IsValid(s)
  {
    DecodeEncoded(s);
    KeptIffValid(s);
  }

  /** What EncodePath gives. */
  predicate IsEncodedChar(b: Byte) {
    IsPathChar(b) || b == PERCENT
  }

  lemma {:induction false} PercentChars(u: Bytes)
    ensures forall i :: 0 <= i < |Percent(u)| ==> IsEncodedChar(Percent(u)[i]) && Percent(u)[i] != '/' as nat
  {
    if u != [] {
      PercentChars(u[1..]);
    }
  }

  lemma {:induction false} EncodedChars(s: Bytes)
    ensures forall i :: 0 <= i < |Encoded(s)| ==> IsEncodedChar(Encoded(s)[i])
    decreases |s|
  {
    if s != [] {
      FirstRuneIsScalar(s);
      PercentChars(EncodeRune(FirstRune(s)));
      EncodedChars(s[FirstWidth(s)..]);
    }
  }
}
