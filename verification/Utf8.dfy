/**
 UTF-8 as Go's range loop and its utf8 package decode and encode it (RFC 3629). A byte that
 starts no well-formed encoding counts as the rune U+FFFD, one byte wide.
*/
module Utf8 {
  type Byte = n: nat | n < 0x100

  type Bytes = seq<Byte>

  const RUNE_ERROR: nat := 0xFFFD

  predicate IsScalar(r: nat) {
    r < 0xD800 || 0xE000 <= r < 0x11_0000
  }

  /** utf8.RuneLen: negative for what cannot be encoded. */
  function RuneLen(r: nat): int {
    if r < 0x80 then 1 else if r < 0x800 then 2 else if !IsScalar(r) then -1 else if r < 0x1_0000 then 3 else 4
  }

  /** The continuation byte for the six low bits. */
  function Low(r: nat): Byte {
    0x80 + r % 0x40
  }

  /** A rune so far, and six bits more. */
  function Push(r: nat, b: Byte): nat
    requires Continues(b)
  {
    r * 0x40 + (b - 0x80)
  }

  predicate Continues(b: Byte) {
    0x80 <= b < 0xC0
  }

  lemma PushLow(r: nat)
    ensures Continues(Low(r)) && Push(r / 0x40, Low(r)) == r
  {
  }

  lemma LowPush(r: nat, b: Byte)
    requires Continues(b)
    ensures Push(r, b) / 0x40 == r && Low(Push(r, b)) == b
  {
  }

  /** utf8.EncodeRune. */
  function EncodeRune(r: nat): Bytes
    requires IsScalar(r)
  {
    if r < 0x80 then [r]
    else if r < 0x800 then [0xC0 + r / 0x40, Low(r)]
    else if r < 0x1_0000 then [0xE0 + r / 0x40 / 0x40, Low(r / 0x40), Low(r)]
    else [0xF0 + r / 0x40 / 0x40 / 0x40, Low(r / 0x40 / 0x40), Low(r / 0x40), Low(r)]
  }

  /** The second bytes that may follow a first byte: no overlong forms, no surrogates, nothing
      above U+10FFFF. */
  predicate SecondFits(b0: Byte, b1: Byte) {
    && (if b0 == 0xE0 then 0xA0 else if b0 == 0xF0 then 0x90 else 0x80) <= b1
    && b1 <= (if b0 == 0xED then 0x9F else if b0 == 0xF4 then 0x8F else 0xBF)
  }

  /** The number of bytes that a first byte announces; 0 if it is none. */
  function Announced(b0: Byte): nat {
    if b0 < 0x80 then 1
    else if 0xC2 <= b0 < 0xE0 then 2
    else if 0xE0 <= b0 < 0xF0 then 3
    else if 0xF0 <= b0 < 0xF5 then 4
    else 0
  }

  /** s starts with a well-formed encoding. */
  predicate StartsRune(s: Bytes)
    requires s != []
  {
    var n := Announced(s[0]);
    && 1 <= n <= |s|
    && (n >= 2 ==> SecondFits(s[0], s[1]))
    && (n >= 3 ==> Continues(s[2]))
    && (n >= 4 ==> Continues(s[3]))
  }

  /** The first rune of a range loop. */
  function FirstRune(s: Bytes): nat
    requires s != []
  {
    if !StartsRune(s) then RUNE_ERROR
    else if Announced(s[0]) == 1 then s[0]
    else if Announced(s[0]) == 2 then Push(s[0] - 0xC0, s[1])
    else if Announced(s[0]) == 3 then Push(Push(s[0] - 0xE0, s[1]), s[2])
    else Push(Push(Push(s[0] - 0xF0, s[1]), s[2]), s[3])
  }

  /** The number of bytes that it takes. */
  function FirstWidth(s: Bytes): nat
    requires s != []
  {
    if StartsRune(s) then Announced(s[0]) else 1
  }

  /** Decoding a well-formed encoding and encoding the rune again gives the same bytes. */
  lemma EncodesBack(s: Bytes)
    requires s != [] && StartsRune(s)
    ensures IsScalar(FirstRune(s)) && RuneLen(FirstRune(s)) == FirstWidth(s)
    ensures EncodeRune(FirstRune(s)) == s[..FirstWidth(s)]
  {
    if Announced(s[0]) == 2 {
      LowPush(s[0] - 0xC0, s[1]);
    } else if Announced(s[0]) == 3 {
      var r := Push(s[0] - 0xE0, s[1]);
      LowPush(s[0] - 0xE0, s[1]);
      LowPush(r, s[2]);
    } else if Announced(s[0]) == 4 {
      var r1 := Push(s[0] - 0xF0, s[1]);
      LowPush(s[0] - 0xF0, s[1]);
      LowPush(r1, s[2]);
      LowPush(Push(r1, s[2]), s[3]);
    }
  }

  /** Encoding a rune and decoding gives the rune. */
  lemma DecodesBack(r: nat, rest: Bytes)
    requires IsScalar(r)
    ensures var s := EncodeRune(r) + rest;
            |EncodeRune(r)| == RuneLen(r) == FirstWidth(s) && StartsRune(s) && FirstRune(s) == r
  {
    PushLow(r);
    PushLow(r / 0x40);
    PushLow(r / 0x40 / 0x40);
  }

  lemma FirstRuneIsScalar(s: Bytes)
    requires s != []
    ensures IsScalar(FirstRune(s)) && RuneLen(FirstRune(s)) > 0
  {
    if StartsRune(s) {
      EncodesBack(s);
    }
  }

  // ----- valid strings -----

  function Utf8(rs: seq<nat>): Bytes
    requires forall i :: 0 <= i < |rs| ==> IsScalar(rs[i])
  {
    if rs == [] then [] else EncodeRune(rs[0]) + Utf8(rs[1..])
  }

  /** s is the encoding of some runes. */
  ghost predicate IsValid(s: Bytes) {
    exists rs: seq<nat> :: (forall i :: 0 <= i < |rs| ==> IsScalar(rs[i])) && Utf8(rs) == s
  }

  /** s with every byte that is part of no encoding replaced by that of U+FFFD. */
  function Repaired(s: Bytes): Bytes
    decreases |s|
  {
    if s == [] then []
    else
      FirstRuneIsScalar(s);
      EncodeRune(FirstRune(s)) + Repaired(s[FirstWidth(s)..])
  }

  /** The first rune's encoding is as long as what it was decoded from, and then the same
      bytes, or longer. */
  lemma FirstGrows(s: Bytes)
    requires s != []
    ensures IsScalar(FirstRune(s))
    ensures |EncodeRune(FirstRune(s))| >= FirstWidth(s)
    ensures |EncodeRune(FirstRune(s))| == FirstWidth(s) ==> EncodeRune(FirstRune(s)) == s[..FirstWidth(s)]
  {
    if StartsRune(s) {
      EncodesBack(s);
    }
  }

  lemma Grows(s: Bytes, w: nat, e: Bytes, rest: Bytes)
    requires w <= |s| && |e| >= w && |rest| >= |s[w..]|
    requires |e| == w ==> e == s[..w]
    requires rest == s[w..] || |rest| > |s[w..]|
    ensures |e + rest| >= |s| && (e + rest == s || |e + rest| > |s|)
    ensures e + rest == s ==> e == s[..w] && rest == s[w..]
  {
    assert s == s[..w] + s[w..];
    if e + rest == s {
      assert |e| == w && |rest| == |s[w..]|;
    }
  }

  lemma {:induction false} RepairedGrows(s: Bytes)
    ensures |Repaired(s)| >= |s|
    ensures Repaired(s) == s || |Repaired(s)| > |s|
    decreases |s|
  {
    if s != [] {
      RepairedGrows(s[FirstWidth(s)..]);
      FirstGrows(s);
      Grows(s, FirstWidth(s), EncodeRune(FirstRune(s)), Repaired(s[FirstWidth(s)..]));
    }
  }

  lemma {:induction false} ValidIsKept(rs: seq<nat>)
    requires forall i :: 0 <= i < |rs| ==> IsScalar(rs[i])
    ensures Repaired(Utf8(rs)) == Utf8(rs)
  {
    if rs != [] {
      DecodesBack(rs[0], Utf8(rs[1..]));
      ValidIsKept(rs[1..]);
    }
  }

  lemma KeptRest(s: Bytes)
    requires s != [] && Repaired(s) == s
    ensures var rest := s[FirstWidth(s)..];
            IsScalar(FirstRune(s)) && EncodeRune(FirstRune(s)) == s[..FirstWidth(s)] && Repaired(rest) == rest
  {
    RepairedGrows(s[FirstWidth(s)..]);
    FirstGrows(s);
    Grows(s, FirstWidth(s), EncodeRune(FirstRune(s)), Repaired(s[FirstWidth(s)..]));
  }

  lemma Utf8Cons(r: nat, rs: seq<nat>)
    requires IsScalar(r) && forall i :: 0 <= i < |rs| ==> IsScalar(rs[i])
    ensures Utf8([r] + rs) == EncodeRune(r) + Utf8(rs)
  {
    var all := [r] + rs;
    assert all[0] == r && all[1..] == rs;
  }

  lemma PrependRune(r: nat, rs: seq<nat>, s: Bytes, w: nat)
    requires IsScalar(r) && w <= |s| && EncodeRune(r) == s[..w]
    requires (forall i :: 0 <= i < |rs| ==> IsScalar(rs[i])) && Utf8(rs) == s[w..]
    ensures IsValid(s)
  {
    Utf8Cons(r, rs);
    Rejoin(EncodeRune(r), Utf8(rs), s, w);
    IsUtf8([r] + rs, s);
  }

  lemma IsUtf8(rs: seq<nat>, s: Bytes)
    requires (forall i :: 0 <= i < |rs| ==> IsScalar(rs[i])) && Utf8(rs) == s
    ensures IsValid(s)
  {
  }

  lemma Rejoin(a: Bytes, b: Bytes, s: Bytes, w: nat)
    requires w <= |s| && a == s[..w] && b == s[w..]
    ensures a + b == s
  {
  }

  lemma {:induction false} KeptIsValid(s: Bytes)
    requires Repaired(s) == s
    ensures IsValid(s)
    decreases |s|
  {
    if s == [] {
      assert Utf8([]) == s;
    } else {
      KeptRest(s);
      KeptIsValid(s[FirstWidth(s)..]);
      var rs: seq<nat> :| (forall i :: 0 <= i < |rs| ==> IsScalar(rs[i])) && Utf8(rs) == s[FirstWidth(s)..];
      PrependRune(FirstRune(s), rs, s, FirstWidth(s));
    }
  }

  /** Ranging over a string loses nothing exactly if it is valid UTF-8. */
  lemma KeptIffValid(s: Bytes)
    ensures Repaired(s) == s <==> IsValid(s)
  {
    if Repaired(s) == s {
      KeptIsValid(s);
    }
    if IsValid(s) {
      var rs: seq<nat> :| (forall i :: 0 <= i < |rs| ==> IsScalar(rs[i])) && Utf8(rs) == s;
      ValidIsKept(rs);
    }
  }
}
