/**
 What a chunk's signature stands for: the lines of the string that is signed, and that the
 chain of signatures binds every chunk, the order of the chunks and the seed.
*/
module ChunkChain {
  import opened ChunkEncoding

  // ----- the lines of the string that is signed -----

  /** The pieces between newlines. */
  function Lines(s: string): (lines: seq<string>)
    ensures |lines| >= 1
  {
    if s == "" then [""]
    else if s[0] == '\n' then [""] + Lines(s[1..])
    else
      var rest := Lines(s[1..]);
      [[s[0]] + rest[0]] + rest[1..]
  }

  lemma {:induction false} LinesOfOne(a: string)
    requires '\n' !in a
    ensures Lines(a) == [a]
  {
    if a != "" {
      LinesOfOne(a[1..]);
      assert [a[0]] + a[1..] == a;
    }
  }

  lemma {:induction false} LinesOfMore(a: string, b: string)
    requires '\n' !in a
    ensures Lines(a + ("\n" + b)) == [a] + Lines(b)
  {
    var s := a + ("\n" + b);
    if a == "" {
      assert s[0] == '\n' && s[1..] == b;
    } else {
      LinesOfMore(a[1..], b);
      assert s[0] == a[0] && s[1..] == a[1..] + ("\n" + b);
      assert [a[0]] + a[1..] == a;
      assert ([a[1..]] + Lines(b))[1..] == Lines(b);
    }
  }

  lemma {:induction false} LinesOfJoined(parts: seq<string>)
    requires parts != [] && forall i :: 0 <= i < |parts| ==> '\n' !in parts[i]
    ensures Lines(JoinLines(parts)) == parts
  {
    if |parts| == 1 {
      LinesOfOne(parts[0]);
    } else {
      LinesOfJoined(parts[1..]);
      LinesOfMore(parts[0], JoinLines(parts[1..]));
      assert parts == [parts[0]] + parts[1..];
    }
  }

  /** The six lines: if neither date, scope nor a hash holds a newline, a splitter finds them. */
  lemma SignedLines(k: Signing, previous: string, data: Bytes)
    requires '\n' !in k.date && '\n' !in k.scope && '\n' !in previous && '\n' !in k.sha256Hex(data)
    ensures Lines(ChunkStringToSign(k, previous, data))
         == ["AWS4-HMAC-SHA256-PAYLOAD", k.date, k.scope, previous,
             "e3b0c44298fc1c14" + "9afbf4c8996fb924" + "27ae41e4649b934c" + "a495991b7852b855", k.sha256Hex(data)]
  {
    assert '\n' !in STREAMING_PAYLOAD_HDR && '\n' !in EMPTY_SHA256;
    LinesOfJoined([STREAMING_PAYLOAD_HDR, k.date, k.scope, previous, EMPTY_SHA256, k.sha256Hex(data)]);
  }

  // ----- the chain -----

  lemma JoinedSix(a: string, b: string, c: string, d: string, e: string, f: string)
    ensures JoinLines([a, b, c, d, e, f])
         == a + ("\n" + (b + ("\n" + (c + ("\n" + (d + ("\n" + (e + ("\n" + f)))))))))
  {
    assert [a, b, c, d, e, f][1..] == [b, c, d, e, f];
    assert [b, c, d, e, f][1..] == [c, d, e, f];
    assert [c, d, e, f][1..] == [d, e, f];
    assert [d, e, f][1..] == [e, f];
    assert [e, f][1..] == [f];
    assert JoinLines([e, f]) == e + ("\n" + f);
    assert JoinLines([d, e, f]) == d + ("\n" + JoinLines([e, f]));
    assert JoinLines([c, d, e, f]) == c + ("\n" + JoinLines([d, e, f]));
    assert JoinLines([b, c, d, e, f]) == b + ("\n" + JoinLines([c, d, e, f]));
  }

  lemma Cancels(a: string, b: string, x: string, y: string)
    requires |a| == |b| && a + x == b + y
    ensures a == b && x == y
  {
    assert (a + x)[..|a|] == a && (b + y)[..|b|] == b;
    assert (a + x)[|a|..] == x && (b + y)[|b|..] == y;
  }

  lemma Line(a: string, x: string, y: string)
    requires a + ("\n" + x) == a + ("\n" + y)
    ensures x == y
  {
    Cancels(a, a, "\n" + x, "\n" + y);
    Cancels("\n", "\n", x, y);
  }

  /** The string that is signed determines the previous signature and the hash of the data. */
  lemma StringToSignDetermines(k: Signing, p: Signature, q: Signature, x: Bytes, y: Bytes)
    requires ChunkStringToSign(k, p, x) == ChunkStringToSign(k, q, y)
    ensures p == q && k.sha256Hex(x) == k.sha256Hex(y)
  {
    var f, g := k.sha256Hex(x), k.sha256Hex(y);
    JoinedSix(STREAMING_PAYLOAD_HDR, k.date, k.scope, p, EMPTY_SHA256, f);
    JoinedSix(STREAMING_PAYLOAD_HDR, k.date, k.scope, q, EMPTY_SHA256, g);
    var s, t := "\n" + (EMPTY_SHA256 + ("\n" + f)), "\n" + (EMPTY_SHA256 + ("\n" + g));
    var u, v := k.scope + ("\n" + (p + s)), k.scope + ("\n" + (q + t));
    Line(STREAMING_PAYLOAD_HDR, k.date + ("\n" + u), k.date + ("\n" + v));
    Line(k.date, u, v);
    Line(k.scope, p + s, q + t);
    Cancels(p, q, s, t);
    Cancels("\n", "\n", EMPTY_SHA256 + ("\n" + f), EMPTY_SHA256 + ("\n" + g));
    Line(EMPTY_SHA256, f, g);
  }

  /** Signing the two chunks behind these signatures is no collision of either hash. */
  predicate NoCollision(k: Signing, p: Signature, x: Bytes, q: Signature, y: Bytes) {
    && (ChunkSignature(k, p, x) == ChunkSignature(k, q, y) ==>
          ChunkStringToSign(k, p, x) == ChunkStringToSign(k, q, y))
    && (k.sha256Hex(x) == k.sha256Hex(y) ==> x == y)
  }

  /** The signatures of two chunks agree only if both the chunks and the signatures before them
      do; in particular one chunk is signed differently behind different signatures. */
  lemma SignatureBinds(k: Signing, p: Signature, x: Bytes, q: Signature, y: Bytes)
    requires NoCollision(k, p, x, q, y)
    ensures ChunkSignature(k, p, x) == ChunkSignature(k, q, y) <==> p == q && x == y
  {
    if ChunkSignature(k, p, x) == ChunkSignature(k, q, y) {
      StringToSignDetermines(k, p, q, x, y);
    }
  }

  predicate NoCollisions(k: Signing, seed: Signature, xs: seq<Bytes>, seed': Signature, ys: seq<Bytes>)
    requires |xs| == |ys|
    decreases |xs|
  {
    xs == [] ||
    var n := |xs| - 1;
    && NoCollisions(k, seed, xs[..n], seed', ys[..n])
    && NoCollision(k, LastSignature(k, seed, xs[..n]), xs[n], LastSignature(k, seed', ys[..n]), ys[n])
  }

  /** The last signature of a list of chunks binds all of them, in their order, and the seed:
      without a collision on the way, no other list of as many chunks has it. */
  lemma {:induction false} ChainBinds(k: Signing, seed: Signature, xs: seq<Bytes>, seed': Signature, ys: seq<Bytes>)
    requires |xs| == |ys| && NoCollisions(k, seed, xs, seed', ys)
    ensures LastSignature(k, seed, xs) == LastSignature(k, seed', ys) <==> seed == seed' && xs == ys
    decreases |xs|
  {
    if xs != [] {
      var n := |xs| - 1;
      ChainBinds(k, seed, xs[..n], seed', ys[..n]);
      SignatureBinds(k, LastSignature(k, seed, xs[..n]), xs[n], LastSignature(k, seed', ys[..n]), ys[n]);
      assert xs == xs[..n] + [xs[n]] && ys == ys[..n] + [ys[n]];
    }
  }

  // ----- the chunk size -----

  const HEX_DIGITS := "0123456789abcdef"

  /** The size is written in lower-case hexadecimal, most significant digit first, without a
      leading zero. */
  lemma {:induction false} HexDigits(n: nat)
    ensures var h := Hex(n);
            && h[|h| - 1] == HEX_DIGITS[n % 16]
            && (if n < 16 then |h| == 1 else h[..|h| - 1] == Hex(n / 16))
            && (n > 0 ==> h[0] != '0')
  {
    if n >= 16 {
      HexDigits(n / 16);
    }
    OneHexDigit(n % 16);
  }

  lemma OneHexDigit(d: nat)
    requires d < 16
    ensures HexDigit(d) == HEX_DIGITS[d] && (d > 0 ==> HexDigit(d) != '0')
  {
  }
}
