/**
 The chunked upload body of Signature Version 4 streaming: a pure encoder, the closed
 formula for its length, and a verifying parser that inverts it. HMAC and SHA-256 are
 parameters; all that is used of HMAC is that its hexadecimal form has 64 characters.
 A byte is written as one character.
*/
module ChunkEncoding {
  import opened Sequences
  import opened Wrappers

  type Bytes = string

  const PAYLOAD_CHUNK_SIZE: nat := 65536
  const CHUNK_SIG_CONST_LEN: nat := 17
  const SIGNATURE_STR_LEN: nat := 64
  const CRLF_LEN: nat := 2

  const STREAMING_PAYLOAD_HDR := "AWS4-HMAC-SHA256-PAYLOAD"
  const EMPTY_SHA256 := "e3b0c44298fc1c14" + "9afbf4c8996fb924" + "27ae41e4649b934c" + "a495991b7852b855"
  const CHUNK_SIGNATURE_TAG := ";chunk-signature="
  const CRLF := "\r\n"

  type Signature = s: string | |s| == 64 witness seq(64, i => '0')

  /** The request's signing context: date, credential scope, and the two hash functions,
      the second one keyed with the request's signing key. */
  datatype Signing = Signing(date: string, scope: string, sha256Hex: Bytes -> string, hmacHex: string -> Signature)

  // ----- the encoder -----

  /** strings.Join with newlines. */
  function JoinLines(parts: seq<string>): string {
    if parts == [] then ""
    else if |parts| == 1 then parts[0]
    else parts[0] + ("\n" + JoinLines(parts[1..]))
  }

  function ChunkStringToSign(k: Signing, previous: string, data: Bytes): string {
    JoinLines([STREAMING_PAYLOAD_HDR, k.date, k.scope, previous, EMPTY_SHA256, k.sha256Hex(data)])
  }

  function ChunkSignature(k: Signing, previous: Signature, data: Bytes): Signature {
    k.hmacHex(ChunkStringToSign(k, previous, data))
  }

  function HexDigit(d: nat): char
    requires d < 16
  {
    if d < 10 then '0' + d as char else 'a' + (d - 10) as char
  }

  /** Lower-case hexadecimal without leading zeros. */
  function Hex(n: nat): (h: string)
    ensures |h| >= 1
  {
    if n < 16 then [HexDigit(n)] else Hex(n / 16) + [HexDigit(n % 16)]
  }

  function ChunkHeader(n: nat, signature: Signature): Bytes {
    Hex(n) + CHUNK_SIGNATURE_TAG + signature + CRLF
  }

  function SignedChunk(data: Bytes, signature: Signature): Bytes {
    ChunkHeader(|data|, signature) + data + CRLF
  }

  /** The signature of the last of the chunks, each chained to the one before. */
  function LastSignature(k: Signing, seed: Signature, chunks: seq<Bytes>): Signature {
    if chunks == [] then seed
    else ChunkSignature(k, LastSignature(k, seed, chunks[..|chunks| - 1]), chunks[|chunks| - 1])
  }

  function SignedChunks(k: Signing, seed: Signature, chunks: seq<Bytes>): Bytes {
    if chunks == [] then ""
    else
      var init := chunks[..|chunks| - 1];
      SignedChunks(k, seed, init) + SignedChunk(chunks[|chunks| - 1], LastSignature(k, seed, chunks))
  }

  /** The body in full chunks and a shorter last one. */
  function SplitBody(body: Bytes): seq<Bytes> {
    if body == "" then []
    else if |body| <= PAYLOAD_CHUNK_SIZE then [body]
    else [body[..PAYLOAD_CHUNK_SIZE]] + SplitBody(body[PAYLOAD_CHUNK_SIZE..])
  }

  /** The whole upload: the body's chunks and then the empty chunk. */
  function Encoding(k: Signing, seed: Signature, body: Bytes): Bytes {
    SignedChunks(k, seed, SplitBody(body) + [""])
  }

  // ----- chunks in front instead of at the end -----

  lemma {:induction false} LastSignatureConcat(k: Signing, seed: Signature, xs: seq<Bytes>, ys: seq<Bytes>)
    ensures LastSignature(k, seed, xs + ys) == LastSignature(k, LastSignature(k, seed, xs), ys)
  {
    if ys == [] {
      assert xs + ys == xs;
    } else {
      var init := ys[..|ys| - 1];
      assert (xs + ys)[..|xs + ys| - 1] == xs + init;
      LastSignatureConcat(k, seed, xs, init);
    }
  }

  lemma {:induction false} SignedChunksConcat(k: Signing, seed: Signature, xs: seq<Bytes>, ys: seq<Bytes>)
    ensures SignedChunks(k, seed, xs + ys)
         == SignedChunks(k, seed, xs) + SignedChunks(k, LastSignature(k, seed, xs), ys)
  {
    if ys == [] {
      assert xs + ys == xs;
    } else {
      var init := ys[..|ys| - 1];
      assert (xs + ys)[..|xs + ys| - 1] == xs + init;
      LastSignatureConcat(k, seed, xs, ys);
      SignedChunksConcat(k, seed, xs, init);
      var mid := LastSignature(k, seed, xs);
      var c := SignedChunk(ys[|ys| - 1], LastSignature(k, mid, ys));
      assert SignedChunks(k, seed, xs + ys) == SignedChunks(k, seed, xs + init) + c;
      assert SignedChunks(k, mid, ys) == SignedChunks(k, mid, init) + c;
      Associates(SignedChunks(k, seed, xs), SignedChunks(k, mid, init), c);
    }
  }

  lemma SignedChunksFirst(k: Signing, seed: Signature, chunks: seq<Bytes>)
    requires chunks != []
    ensures var sig := ChunkSignature(k, seed, chunks[0]);
            SignedChunks(k, seed, chunks) == SignedChunk(chunks[0], sig) + SignedChunks(k, sig, chunks[1..])
  {
    assert chunks == [chunks[0]] + chunks[1..];
    SignedOne(k, seed, chunks[0]);
    SignedChunksConcat(k, seed, [chunks[0]], chunks[1..]);
  }

  lemma SignedOne(k: Signing, seed: Signature, c: Bytes)
    ensures LastSignature(k, seed, [c]) == ChunkSignature(k, seed, c)
    ensures SignedChunks(k, seed, [c]) == SignedChunk(c, ChunkSignature(k, seed, c))
  {
    assert [c][..0] == [];
    assert LastSignature(k, seed, [c]) == ChunkSignature(k, seed, c);
    assert SignedChunks(k, seed, [c]) == "" + SignedChunk(c, LastSignature(k, seed, [c]));
  }

  // ----- the length of the whole -----

  function SignedChunkLength(n: nat): nat {
    |Hex(n)| + CHUNK_SIG_CONST_LEN + SIGNATURE_STR_LEN + CRLF_LEN + n + CRLF_LEN
  }

  /** The content length that is announced for a body of dataLen bytes. */
  function StreamLength(dataLen: int, chunkSize: nat): int
    requires chunkSize > 0
  {
    if dataLen <= 0 then 0
    else
      dataLen / chunkSize * SignedChunkLength(chunkSize)
      + (if dataLen % chunkSize > 0 then SignedChunkLength(dataLen % chunkSize) else 0)
      + SignedChunkLength(0)
  }

  lemma SignedChunkHasLength(data: Bytes, signature: Signature)
    ensures |SignedChunk(data, signature)| == SignedChunkLength(|data|)
  {
    assert |CHUNK_SIGNATURE_TAG| == CHUNK_SIG_CONST_LEN;
  }

  function DataLength(n: nat): nat {
    n / PAYLOAD_CHUNK_SIZE * SignedChunkLength(PAYLOAD_CHUNK_SIZE)
    + if n % PAYLOAD_CHUNK_SIZE > 0 then SignedChunkLength(n % PAYLOAD_CHUNK_SIZE) else 0
  }

  lemma DataLengthStep(n: nat)
    ensures n <= PAYLOAD_CHUNK_SIZE ==> DataLength(n) == if n == 0 then 0 else SignedChunkLength(n)
    ensures n > PAYLOAD_CHUNK_SIZE ==>
      DataLength(n) == SignedChunkLength(PAYLOAD_CHUNK_SIZE) + DataLength(n - PAYLOAD_CHUNK_SIZE)
  {
    if n > PAYLOAD_CHUNK_SIZE {
      OneMore(n - PAYLOAD_CHUNK_SIZE, SignedChunkLength(PAYLOAD_CHUNK_SIZE));
    } else if n == PAYLOAD_CHUNK_SIZE {
      assert n / PAYLOAD_CHUNK_SIZE == 1 && n % PAYLOAD_CHUNK_SIZE == 0;
    } else {
      assert n / PAYLOAD_CHUNK_SIZE == 0 && n % PAYLOAD_CHUNK_SIZE == n;
    }
  }

  function SumLength(chunks: seq<Bytes>): nat {
    if chunks == [] then 0 else SignedChunkLength(|chunks[0]|) + SumLength(chunks[1..])
  }

  lemma {:induction false} SignedChunksLength(k: Signing, seed: Signature, chunks: seq<Bytes>)
    ensures |SignedChunks(k, seed, chunks)| == SumLength(chunks)
    decreases |chunks|
  {
    if chunks != [] {
      var sig := ChunkSignature(k, seed, chunks[0]);
      SignedChunksFirst(k, seed, chunks);
      SignedChunkHasLength(chunks[0], sig);
      SignedChunksLength(k, sig, chunks[1..]);
    }
  }

  lemma {:induction false} SplitLength(body: Bytes)
    ensures SumLength(SplitBody(body)) == DataLength(|body|)
    decreases |body|
  {
    DataLengthStep(|body|);
    if |body| > PAYLOAD_CHUNK_SIZE {
      var rest := body[PAYLOAD_CHUNK_SIZE..];
      assert SplitBody(body)[1..] == SplitBody(rest);
      SplitLength(rest);
    } else if body != "" {
      assert [body][1..] == [];
    }
  }

  lemma OneMore(n: nat, l: nat)
    ensures (n + PAYLOAD_CHUNK_SIZE) / PAYLOAD_CHUNK_SIZE * l == n / PAYLOAD_CHUNK_SIZE * l + l
    ensures (n + PAYLOAD_CHUNK_SIZE) % PAYLOAD_CHUNK_SIZE == n % PAYLOAD_CHUNK_SIZE
  {
    assert (n + PAYLOAD_CHUNK_SIZE) / PAYLOAD_CHUNK_SIZE == n / PAYLOAD_CHUNK_SIZE + 1;
    Distribute(n / PAYLOAD_CHUNK_SIZE, l);
  }

  lemma Distribute(q: nat, l: nat)
    ensures (q + 1) * l == q * l + l
  {
  }

  /** The announced length is the true length exactly for nonempty bodies: for an empty one
      the formula says 0, although the empty chunk is sent. */
  lemma LengthIsAnnounced(k: Signing, seed: Signature, body: Bytes)
    ensures |Encoding(k, seed, body)| == StreamLength(|body|, PAYLOAD_CHUNK_SIZE) <==> body != ""
    ensures body == "" ==> |Encoding(k, seed, body)| == 86
  {
    var chunks := SplitBody(body);
    var all := chunks + [""];
    assert all[..|chunks|] == chunks;
    SignedChunksLength(k, seed, chunks);
    SplitLength(body);
    SignedChunkHasLength("", LastSignature(k, seed, all));
    assert |Hex(0)| == 1;
  }

  // ----- the parser -----

  function IndexOf(s: string, c: char): (i: nat)
    ensures i <= |s| && (i < |s| ==> s[i] == c)
    ensures c !in s[..i]
  {
    if s == "" || s[0] == c then 0 else 1 + IndexOf(s[1..], c)
  }

  function DigitValue(c: char): Option<nat> {
    if '0' <= c <= '9' then Some((c - '0') as nat)
    else if 'a' <= c <= 'f' then Some((c - 'a') as nat + 10)
    else None
  }

  function HexValue(s: string): Option<nat> {
    if s == "" then None
    else
      match DigitValue(s[|s| - 1])
      case None => None
      case Some(d) =>
        if |s| == 1 then Some(d)
        else
          match HexValue(s[..|s| - 1])
          case None => None
          case Some(v) => Some(16 * v + d)
  }

  datatype Parsed = Parsed(data: Bytes, signature: string, rest: Bytes)

  /** What begins with p, without it. */
  function Expect(s: Bytes, p: Bytes): Option<Bytes> {
    if p <= s then Some(s[|p|..]) else None
  }

  /** What follows the size n: ";chunk-signature=" signature CRLF data CRLF. */
  function ParseAfterSize(n: nat, s: Bytes): Option<Parsed> {
    match Expect(s, CHUNK_SIGNATURE_TAG)
    case None => None
    case Some(s1) =>
      if |s1| < SIGNATURE_STR_LEN then None
      else
        match Expect(s1[SIGNATURE_STR_LEN..], CRLF)
        case None => None
        case Some(s2) =>
          if |s2| < n then None
          else
            match Expect(s2[n..], CRLF)
            case None => None
            case Some(rest) => Some(Parsed(s2[..n], s1[..SIGNATURE_STR_LEN], rest))
  }

  /** One chunk, as section "Defining the Chunk Body" of the S3 documentation on chunked
      uploads has it. */
  function ParseChunk(s: Bytes): Option<Parsed> {
    var i := IndexOf(s, ';');
    match HexValue(s[..i])
    case None => None
    case Some(n) => ParseAfterSize(n, s[i..])
  }

  lemma ParseChunkShortens(s: Bytes)
    ensures match ParseChunk(s) case Some(p) => |p.rest| < |s| case None => true
  {
  }

  /** Checks every chunk's signature against the chain and returns the payload, if the
      stream ends with the empty chunk. */
  function ParseStream(k: Signing, previous: Signature, s: Bytes): Option<Bytes>
    decreases |s|
  {
    ParseChunkShortens(s);
    match ParseChunk(s)
    case None => None
    case Some(p) =>
      if p.signature != ChunkSignature(k, previous, p.data) then None
      else if p.data == "" then (if p.rest == "" then Some("") else None)
      else
        match ParseStream(k, p.signature, p.rest)
        case None => None
        case Some(body) => Some(p.data + body)
  }

  lemma {:induction false} HexRoundTrip(n: nat)
    ensures HexValue(Hex(n)) == Some(n)
    ensures ';' !in Hex(n)
  {
    if n >= 16 {
      HexRoundTrip(n / 16);
      var h := Hex(n);
      assert h[..|h| - 1] == Hex(n / 16);
      assert DigitValue(HexDigit(n % 16)) == Some(n % 16);
    } else {
      assert DigitValue(HexDigit(n)) == Some(n);
    }
  }

  lemma {:induction false} IndexOfTag(h: string, t: string, c: char)
    requires c !in h && t != "" && t[0] == c
    ensures IndexOf(h + t, c) == |h|
  {
    if h == "" {
      assert h + t == t;
    } else {
      assert (h + t)[1..] == h[1..] + t;
      IndexOfTag(h[1..], t, c);
    }
  }

  lemma ExpectConcat(p: Bytes, rest: Bytes)
    ensures Expect(p + rest, p) == Some(rest)
  {
    assert (p + rest)[|p|..] == rest;
  }

  /** One signed chunk parses to its data and signature. */
  lemma ParseSignedChunk(data: Bytes, signature: Signature, rest: Bytes)
    ensures ParseChunk(SignedChunk(data, signature) + rest) == Some(Parsed(data, signature, rest))
  {
    var h := Hex(|data|);
    HexRoundTrip(|data|);
    var s3 := CRLF + rest;
    var s2 := data + s3;
    var s1 := signature + (CRLF + s2);
    var s0 := CHUNK_SIGNATURE_TAG + s1;
    assert SignedChunk(data, signature) + rest == h + s0;
    IndexOfTag(h, s0, ';');
    assert (h + s0)[..|h|] == h && (h + s0)[|h|..] == s0;
    ExpectConcat(CHUNK_SIGNATURE_TAG, s1);
    assert s1[..SIGNATURE_STR_LEN] == signature && s1[SIGNATURE_STR_LEN..] == CRLF + s2;
    ExpectConcat(CRLF, s2);
    assert s2[..|data|] == data && s2[|data|..] == s3;
    ExpectConcat(CRLF, rest);
  }

  function Flatten(chunks: seq<Bytes>): Bytes {
    if chunks == [] then "" else chunks[0] + Flatten(chunks[1..])
  }

  lemma ParseStep(k: Signing, previous: Signature, data: Bytes, rest: Bytes)
    ensures var sig := ChunkSignature(k, previous, data);
            ParseStream(k, previous, SignedChunk(data, sig) + rest)
            == if data == "" then (if rest == "" then Some("") else None)
               else match ParseStream(k, sig, rest) case None => None case Some(body) => Some(data + body)
  {
    ParseSignedChunk(data, ChunkSignature(k, previous, data), rest);
  }

  lemma {:induction false} ParseChunks(k: Signing, seed: Signature, chunks: seq<Bytes>)
    requires "" !in chunks
    ensures ParseStream(k, seed, SignedChunks(k, seed, chunks + [""])) == Some(Flatten(chunks))
    decreases |chunks|
  {
    var all := chunks + [""];
    var sig := ChunkSignature(k, seed, all[0]);
    if chunks != [] {
      assert all[1..] == chunks[1..] + [""] && all[0] == chunks[0] && chunks[0] in chunks;
      ParseChunks(k, sig, chunks[1..]);
      ParseFirst(k, seed, all, Flatten(chunks[1..]));
    } else {
      SignedChunksFirst(k, seed, all);
      assert all[1..] == [];
      ParseStep(k, seed, "", "");
    }
  }

  lemma ParseFirst(k: Signing, seed: Signature, chunks: seq<Bytes>, body: Bytes)
    requires chunks != [] && chunks[0] != ""
    requires var sig := ChunkSignature(k, seed, chunks[0]);
             ParseStream(k, sig, SignedChunks(k, sig, chunks[1..])) == Some(body)
    ensures ParseStream(k, seed, SignedChunks(k, seed, chunks)) == Some(chunks[0] + body)
  {
    SignedChunksFirst(k, seed, chunks);
    var sig := ChunkSignature(k, seed, chunks[0]);
    ParseStep(k, seed, chunks[0], SignedChunks(k, sig, chunks[1..]));
  }

  lemma {:induction false} SplitFlatten(body: Bytes)
    ensures Flatten(SplitBody(body)) == body && "" !in SplitBody(body)
    decreases |body|
  {
    if |body| > PAYLOAD_CHUNK_SIZE {
      var rest := body[PAYLOAD_CHUNK_SIZE..];
      SplitFlatten(rest);
      assert SplitBody(body)[1..] == SplitBody(rest);
      assert body == body[..PAYLOAD_CHUNK_SIZE] + rest;
    } else if body != "" {
      assert [body][1..] == [];
      assert body + "" == body;
    }
  }

  /** Parsing the upload, signatures checked against the chain from the seed, returns the
      body. */
  lemma ParseEncoding(k: Signing, seed: Signature, body: Bytes)
    ensures ParseStream(k, seed, Encoding(k, seed, body)) == Some(body)
  {
    SplitFlatten(body);
    ParseChunks(k, seed, SplitBody(body));
  }
}
