/**
 The signing reader: it draws the body from an underlying reader in whatever pieces that
 one delivers, and hands out signed chunks in whatever pieces its caller asks for. Every
 call keeps the invariant that what was handed out and what is buffered are, together,
 the signed chunks of the body read so far.
*/
module StreamingReader {
  import opened Wrappers
  import opened ChunkEncoding
  import opened Sequences

  // ----- the underlying reader -----

  datatype ReadError = NoError | EOF | LengthMismatch

  /** A body that is delivered in arbitrary pieces: a call may return fewer bytes than asked
      for, none at all (finitely often), or bytes together with the end of file. */
  class BaseReader {
    const bytes: Bytes
    var pos: nat
    var stalls: nat

    ghost predicate Valid()
      reads this
    {
      pos <= |bytes|
    }

    constructor (bytes: Bytes, stalls: nat)
      ensures Valid() && this.bytes == bytes && pos == 0
    {
      this.bytes := bytes;
      this.pos := 0;
      this.stalls := stalls;
    }

    method Read(want: nat) returns (data: Bytes, eof: bool)
      requires Valid() && want > 0
      modifies this
      ensures Valid() && old(pos) <= pos && pos - old(pos) <= want
      ensures data == bytes[old(pos)..pos]
      ensures eof ==> pos == |bytes|
      ensures stalls <= old(stalls)
      ensures data == "" && !eof ==> stalls < old(stalls)
    {
      var most := if want < |bytes| - pos then want else |bytes| - pos;
      var least := if stalls == 0 && most > 0 then 1 else 0;
      var n :| least <= n <= most;
      data := bytes[pos..pos + n];
      pos := pos + n;
      if pos == |bytes| {
        eof :| n == 0 && stalls == 0 ==> eof;
      } else {
        eof := false;
      }
      if n == 0 && !eof {
        stalls := stalls - 1;
      }
    }
  }

  // ----- what the reader has signed -----

  /** Between two chunks: the chunks signed so far are the body up to pos, none is empty,
      and when the body has its declared length they are the first ones of its split. */
  ghost predicate Underway(body: Bytes, contentLen: nat, chunks: seq<Bytes>, pos: nat) {
    && pos <= |body|
    && Flatten(chunks) == body[..pos]
    && "" !in chunks
    && (|body| == contentLen ==>
          && SplitBody(body) == chunks + SplitBody(body[pos..])
          && (pos < |body| ==> pos == PAYLOAD_CHUNK_SIZE * |chunks|))
  }

  /** After the end of the body: the empty chunk was signed exactly when the body had its
      declared length. */
  ghost predicate Ended(body: Bytes, contentLen: nat, chunks: seq<Bytes>) {
    if |body| == contentLen then chunks == SplitBody(body) + [""]
    else "" !in chunks && Flatten(chunks) <= body
  }

  function TotalChunks(contentLen: nat): nat {
    (contentLen + PAYLOAD_CHUNK_SIZE - 1) / PAYLOAD_CHUNK_SIZE + 1
  }

  /** A chunk of len bytes is complete. */
  predicate Complete(contentLen: nat, chunkNum: nat, len: nat) {
    || len == PAYLOAD_CHUNK_SIZE
    || (chunkNum == TotalChunks(contentLen) - 1 && len == contentLen % PAYLOAD_CHUNK_SIZE)
  }

  lemma {:induction false} FlattenSnoc(chunks: seq<Bytes>, c: Bytes)
    ensures Flatten(chunks + [c]) == Flatten(chunks) + c
  {
    if chunks == [] {
      assert [c][1..] == [] && c + "" == c;
    } else {
      assert (chunks + [c])[1..] == chunks[1..] + [c];
      FlattenSnoc(chunks[1..], c);
    }
  }

  /** When the body has its declared length, a complete chunk is the next one of the split. */
  lemma CompleteIsNext(body: Bytes, chunks: seq<Bytes>, start: nat, len: nat)
    requires Underway(body, |body|, chunks, start)
    requires 0 < len && start + len <= |body| && Complete(|body|, |chunks| + 1, len)
    ensures SplitBody(body[start..]) == [body[start..start + len]] + SplitBody(body[start + len..])
    ensures start + len < |body| ==> len == PAYLOAD_CHUNK_SIZE
  {
    var rest := body[start..];
    LastChunkNumber(|body|, |chunks|);
    assert rest[..len] == body[start..start + len] && rest[len..] == body[start + len..];
    if len == |rest| {
      assert rest[..len] == rest;
    }
  }

  /** The chunk number names the last data chunk exactly when what is left fits in one. */
  lemma LastChunkNumber(length: nat, n: nat)
    requires PAYLOAD_CHUNK_SIZE * n < length
    ensures n + 1 == TotalChunks(length) - 1 <==> length - PAYLOAD_CHUNK_SIZE * n <= PAYLOAD_CHUNK_SIZE
    ensures length - PAYLOAD_CHUNK_SIZE * n < PAYLOAD_CHUNK_SIZE ==>
              length % PAYLOAD_CHUNK_SIZE == length - PAYLOAD_CHUNK_SIZE * n
    ensures length - PAYLOAD_CHUNK_SIZE * n == PAYLOAD_CHUNK_SIZE ==> length % PAYLOAD_CHUNK_SIZE == 0
  {
  }

  lemma ChunkSigned(body: Bytes, contentLen: nat, chunks: seq<Bytes>, start: nat, len: nat)
    requires Underway(body, contentLen, chunks, start)
    requires 0 < len && start + len <= |body| && Complete(contentLen, |chunks| + 1, len)
    ensures Underway(body, contentLen, chunks + [body[start..start + len]], start + len)
  {
    var c := body[start..start + len];
    FlattenSnoc(chunks, c);
    assert body[..start] + c == body[..start + len];
    if |body| == contentLen {
      CompleteIsNext(body, chunks, start, len);
      assert chunks + SplitBody(body[start..]) == (chunks + [c]) + SplitBody(body[start + len..]);
    }
  }

  /** When the body has its declared length, no incomplete chunk is left at its end. */
  lemma NothingLeftOver(body: Bytes, chunks: seq<Bytes>, start: nat)
    requires Underway(body, |body|, chunks, start)
    requires |body| - start < PAYLOAD_CHUNK_SIZE
    requires |body| > start ==> !Complete(|body|, |chunks| + 1, |body| - start)
    ensures start == |body| && chunks == SplitBody(body)
  {
    if start < |body| {
      LastChunkNumber(|body|, |chunks|);
    }
    assert body[start..] == "";
  }

  lemma EncodingPrefix(k: Signing, seed: Signature, body: Bytes, chunks: seq<Bytes>)
    requires chunks <= SplitBody(body) + [""]
    ensures SignedChunks(k, seed, chunks) <= Encoding(k, seed, body)
  {
    var all := SplitBody(body) + [""];
    assert all == chunks + all[|chunks|..];
    SignedChunksConcat(k, seed, chunks, all[|chunks|..]);
  }

  // ----- the reader -----

  class StreamingReader {
    const signing: Signing
    const seedSignature: Signature
    const contentLen: nat
    const baseReader: BaseReader
    const chunkBuf: array<char>
    const totalChunks: nat
    const lastChunkSize: nat
    var prevSignature: Signature
    var bytesRead: nat
    var buf: Bytes
    var chunkBufLen: nat
    var done: bool
    var chunkNum: nat

    ghost var chunks: seq<Bytes>    // signed so far
    ghost var delivered: Bytes      // handed out so far

    ghost predicate Valid()
      reads this, baseReader
    {
      && Configured()
      && Chained()
      && baseReader.Valid()
      && bytesRead == baseReader.pos
      && (if done then bytesRead == |baseReader.bytes| && Ended(baseReader.bytes, contentLen, chunks)
          else Underway(baseReader.bytes, contentLen, chunks, bytesRead))
    }

    ghost predicate Configured() {
      && chunkBuf.Length == PAYLOAD_CHUNK_SIZE
      && totalChunks == TotalChunks(contentLen)
      && lastChunkSize == contentLen % PAYLOAD_CHUNK_SIZE
    }

    /** What was handed out and what is buffered are, together, the signed chunks. */
    ghost predicate Chained()
      reads this`chunks, this`prevSignature, this`buf, this`delivered, this`chunkNum
    {
      && chunkNum == |chunks| + 1
      && prevSignature == LastSignature(signing, seedSignature, chunks)
      && delivered + buf == SignedChunks(signing, seedSignature, chunks)
    }

    constructor (signing: Signing, seedSignature: Signature, contentLen: nat, baseReader: BaseReader)
      requires baseReader.Valid() && baseReader.pos == 0
      ensures Valid() && fresh(this) && fresh(chunkBuf)
      ensures this.signing == signing && this.seedSignature == seedSignature
      ensures this.contentLen == contentLen && this.baseReader == baseReader
      ensures delivered == "" && !done
    {
      this.signing := signing;
      this.seedSignature := seedSignature;
      this.contentLen := contentLen;
      this.baseReader := baseReader;
      this.chunkBuf := new char[PAYLOAD_CHUNK_SIZE];
      this.totalChunks := TotalChunks(contentLen);
      this.lastChunkSize := contentLen % PAYLOAD_CHUNK_SIZE;
      this.prevSignature := seedSignature;
      this.bytesRead, this.buf, this.chunkBufLen, this.done, this.chunkNum := 0, "", 0, false, 1;
      this.chunks, this.delivered := [], "";
      new;
      assert baseReader.bytes[0..] == baseReader.bytes;
    }

    /** Signs the first chunkLen bytes of the chunk buffer into the output buffer. */
    method SignChunk(chunkLen: nat)
      requires chunkLen <= chunkBuf.Length && Chained()
      modifies this
      ensures chunks == old(chunks) + [chunkBuf[..chunkLen]]
      ensures Chained() && chunkBufLen == 0
      ensures delivered == old(delivered) && bytesRead == old(bytesRead) && done == old(done)
      ensures |buf| > |old(buf)|
    {
      var data := chunkBuf[..chunkLen];
      var signature := ChunkSignature(signing, prevSignature, data);
      prevSignature := signature;
      WrittenInThree(buf, ChunkHeader(chunkLen, signature), data);
      buf := buf + ChunkHeader(chunkLen, signature);
      buf := buf + data;
      buf := buf + CRLF;
      chunkBufLen := 0;
      chunkNum := chunkNum + 1;
      chunks := chunks + [data];
      SignedSnoc(signing, seedSignature, old(chunks), data);
      Associates(delivered, old(buf), SignedChunk(data, signature));
    }

    /** While a chunk is being filled: the chunk buffer holds the body from start on. */
    ghost predicate Filling(start: nat)
      reads this, baseReader, chunkBuf
    {
      && Configured()
      && Chained()
      && !done
      && Underway(baseReader.bytes, contentLen, chunks, start)
      && Holding(start)
    }

    ghost predicate Holding(start: nat)
      reads this`bytesRead, this`chunkBufLen, baseReader, chunkBuf
    {
      && baseReader.Valid()
      && bytesRead == baseReader.pos
      && start + chunkBufLen == bytesRead
      && chunkBufLen <= PAYLOAD_CHUNK_SIZE == chunkBuf.Length
      && chunkBuf[..chunkBufLen] == baseReader.bytes[start..bytesRead]
    }

    /** One call of the base reader. */
    method Draw(ghost start: nat) returns (n: nat, eof: bool)
      requires Holding(start) && chunkBufLen < PAYLOAD_CHUNK_SIZE
      modifies this`chunkBufLen, this`bytesRead, baseReader, chunkBuf
      ensures Holding(start)
      ensures chunkBufLen == old(chunkBufLen) + n && bytesRead == old(bytesRead) + n
      ensures eof ==> bytesRead == |baseReader.bytes|
      ensures n == 0 && !eof ==> baseReader.stalls < old(baseReader.stalls)
    {
      var data;
      data, eof := baseReader.Read(chunkBuf.Length - chunkBufLen);
      n := |data|;
      ghost var had := chunkBuf[..chunkBufLen];
      Store(data);
      assert chunkBuf[..chunkBufLen + n] == had + data;
      SliceGrows(baseReader.bytes, start, bytesRead, bytesRead + n);
      chunkBufLen := chunkBufLen + n;
      bytesRead := bytesRead + n;
    }

    /** A complete chunk is signed. */
    method CloseChunk(ghost start: nat)
      requires Filling(start) && chunkBufLen > 0 && Complete(contentLen, chunkNum, chunkBufLen)
      modifies this
      ensures Valid() && !done && delivered == old(delivered) && |buf| > |old(buf)|
      ensures bytesRead == old(bytesRead)
    {
      ChunkSigned(baseReader.bytes, contentLen, chunks, start, chunkBufLen);
      SignChunk(chunkBufLen);
    }

    /** The body has ended. */
    method CloseStream(ghost start: nat) returns (err: ReadError)
      requires Filling(start) && bytesRead == |baseReader.bytes| && chunkBufLen < PAYLOAD_CHUNK_SIZE
      requires chunkBufLen > 0 ==> !Complete(contentLen, chunkNum, chunkBufLen)
      modifies this
      ensures Valid() && done && delivered == old(delivered)
      ensures bytesRead == old(bytesRead)
      ensures err == NoError ==> |buf| > |old(buf)| && |baseReader.bytes| == contentLen
      ensures err != NoError ==> err == LengthMismatch && buf == old(buf) && |baseReader.bytes| != contentLen
    {
      done := true;
      if bytesRead != contentLen {
        return LengthMismatch;
      }
      NothingLeftOver(baseReader.bytes, chunks, start);
      assert chunkBuf[..0] == "";
      SignChunk(0);
      return NoError;
    }

    /** Reads the underlying reader until one chunk is complete or the body ends. */
    method FillChunk() returns (err: ReadError)
      requires Valid() && !done
      modifies this, baseReader, chunkBuf
      ensures Valid() && delivered == old(delivered)
      ensures err == NoError ==> |buf| > |old(buf)|
      ensures err == NoError ==> bytesRead > old(bytesRead) || (done && |baseReader.bytes| == contentLen)
      ensures bytesRead >= old(bytesRead)
      ensures err == NoError && done ==> |baseReader.bytes| == contentLen
      ensures err != NoError ==> err == LengthMismatch && done && |baseReader.bytes| != contentLen
    {
      chunkBufLen := 0;
      ghost var start := bytesRead;
      assert chunkBuf[..0] == baseReader.bytes[start..start];
      while true
        invariant Filling(start) && chunkBufLen < PAYLOAD_CHUNK_SIZE
        invariant delivered == old(delivered) && buf == old(buf)
        invariant chunkBufLen > 0 ==> !Complete(contentLen, chunkNum, chunkBufLen)
        invariant bytesRead == start + chunkBufLen
        decreases |baseReader.bytes| - bytesRead, baseReader.stalls
      {
        var n1, eof := Draw(start);
        if n1 > 0 {
          if chunkBufLen == PAYLOAD_CHUNK_SIZE || (chunkNum == totalChunks - 1 && chunkBufLen == lastChunkSize) {
            CloseChunk(start);
            return NoError;
          }
        }
        if eof {
          err := CloseStream(start);
          return;
        }
      }
    }

    /** The base reader's bytes arrive behind those already in the chunk buffer. */
    method Store(data: Bytes)
      requires chunkBufLen + |data| <= chunkBuf.Length
      modifies chunkBuf
      ensures chunkBuf[..chunkBufLen + |data|] == old(chunkBuf[..chunkBufLen]) + data
    {
      forall i | 0 <= i < |data| {
        chunkBuf[chunkBufLen + i] := data[i];
      }
    }

    /** The buffer's own Read: hands out what fits. */
    method Take(b: array<char>) returns (n: nat, err: ReadError)
      requires Chained() && b != chunkBuf
      modifies this`buf, this`delivered, b
      ensures Chained()
      ensures n <= b.Length && delivered == old(delivered) + b[..n]
      ensures |buf| == |old(buf)| - n
      ensures n == if |old(buf)| < b.Length then |old(buf)| else b.Length
      ensures if old(buf) == "" then n == 0 && buf == "" && err == (if b.Length == 0 then NoError else EOF)
              else err == NoError && (b.Length > 0 ==> n > 0)
    {
      if buf == "" {
        assert b[..0] == "";
        return 0, if b.Length == 0 then NoError else EOF;
      }
      n := if |buf| < b.Length then |buf| else b.Length;
      forall i | 0 <= i < n {
        b[i] := buf[i];
      }
      assert b[..n] == buf[..n];
      assert delivered + buf == (delivered + buf[..n]) + buf[n..];
      delivered := delivered + buf[..n];
      buf := buf[n..];
      err := NoError;
    }

    /** The reader's Read: fills its buffer with one more chunk when the caller asks for
        more than is there, and hands out what fits. */
    method Read(b: array<char>) returns (n: nat, err: ReadError)
      requires Valid() && b != chunkBuf
      modifies this, baseReader, chunkBuf, b
      ensures Valid()
      ensures n <= b.Length && delivered == old(delivered) + b[..n]
      ensures err != NoError ==> n == 0
      ensures err == NoError && b.Length > 0 ==> n > 0
      ensures err == EOF ==> done && delivered == SignedChunks(signing, seedSignature, chunks)
      ensures err == LengthMismatch ==> |baseReader.bytes| != contentLen
      ensures err != LengthMismatch && !old(done) && |old(buf)| < b.Length ==> bytesRead > old(bytesRead) || done
      ensures err == NoError && n < b.Length ==> buf == ""
      ensures err != LengthMismatch && !old(done) && done ==> |baseReader.bytes| == contentLen
      ensures old(done) ==> done
      ensures err == NoError ==>
        || bytesRead > old(bytesRead)
        || (bytesRead == old(bytesRead) && !old(done) && done)
        || (bytesRead == old(bytesRead) && done == old(done) && |buf| == |old(buf)| - n)
    {
      if !done && |buf| < b.Length {
        var e := FillChunk();
        if e != NoError {
          assert b[..0] == "";
          return 0, e;
        }
      }
      n, err := Take(b);
      if err == EOF {
        assert delivered + buf == delivered;
      }
    }
  }

  lemma WrittenInThree(buf: Bytes, header: Bytes, data: Bytes)
    ensures ((buf + header) + data) + CRLF == buf + (header + data + CRLF)
  {
  }

  lemma SignedSnoc(k: Signing, seed: Signature, chunks: seq<Bytes>, c: Bytes)
    ensures var sig := ChunkSignature(k, LastSignature(k, seed, chunks), c);
            && LastSignature(k, seed, chunks + [c]) == sig
            && SignedChunks(k, seed, chunks + [c]) == SignedChunks(k, seed, chunks) + SignedChunk(c, sig)
  {
    assert (chunks + [c])[..|chunks|] == chunks;
  }

  // ----- every run -----

  /** Whatever was handed out so far, the chunks signed so far are the first chunks of the
      one fixed encoding, if the body has its declared length. */
  lemma DeliveredIsPrefix(r: StreamingReader)
    requires r.Valid() && |r.baseReader.bytes| == r.contentLen
    ensures r.delivered + r.buf <= Encoding(r.signing, r.seedSignature, r.baseReader.bytes)
    ensures r.delivered <= Encoding(r.signing, r.seedSignature, r.baseReader.bytes)
  {
    var body := r.baseReader.bytes;
    if !r.done {
      assert SplitBody(body) + [""] == r.chunks + (SplitBody(body[r.bytesRead..]) + [""]);
    }
    EncodingPrefix(r.signing, r.seedSignature, body, r.chunks);
  }

  lemma CutAfterSize(data: Bytes, signature: Signature, t: Bytes)
    requires t < CHUNK_SIGNATURE_TAG + signature + CRLF + data + CRLF
    ensures ParseAfterSize(|data|, t) == None
  {
  }

  /** A stream cut off inside its first chunk does not parse. */
  lemma CutChunkDoesNotParse(data: Bytes, signature: Signature, s: Bytes)
    requires s < SignedChunk(data, signature)
    ensures ParseChunk(s) == None
  {
    HexRoundTrip(|data|);
    CutAfterHex(Hex(|data|), CHUNK_SIGNATURE_TAG + signature + CRLF + data + CRLF, s, data, signature);
  }

  lemma CutAfterHex(h: string, after: Bytes, s: Bytes, data: Bytes, signature: Signature)
    requires h == Hex(|data|) && ';' !in h && HexValue(h) == Some(|data|)
    requires after == CHUNK_SIGNATURE_TAG + signature + CRLF + data + CRLF
    requires s < SignedChunk(data, signature)
    ensures ParseChunk(s) == None
  {
    SizeThenRest(h, signature, data);
    if |s| <= |h| {
      assert s == h[..|s|];
      assert ';' !in s;
    } else {
      var t := s[|h|..];
      assert s == h + t && t < after;
      CutAfterSize(data, signature, t);
      assert t[0] == after[0];
      IndexOfTag(h, t, ';');
      assert s[..|h|] == h;
    }
  }

  lemma SizeThenRest(h: string, signature: Signature, data: Bytes)
    requires h == Hex(|data|)
    ensures SignedChunk(data, signature) == h + (CHUNK_SIGNATURE_TAG + signature + CRLF + data + CRLF)
  {
    Reassociate(h, CHUNK_SIGNATURE_TAG, signature, CRLF, data);
  }

  lemma Reassociate(h: string, t: string, s: string, c: string, d: string)
    ensures h + t + s + c + d + c == h + (t + s + c + d + c)
  {
  }

  /** When the body does not have its declared length, nothing that any run hands out is a
      complete upload: the empty chunk never comes. */
  lemma {:induction false} UnterminatedDoesNotParse(k: Signing, seed: Signature, chunks: seq<Bytes>, s: Bytes)
    requires "" !in chunks && s <= SignedChunks(k, seed, chunks)
    ensures ParseStream(k, seed, s) == None
    decreases |chunks|
  {
    if chunks != [] {
      var sig := ChunkSignature(k, seed, chunks[0]);
      var first, rest := SignedChunk(chunks[0], sig), SignedChunks(k, sig, chunks[1..]);
      SignedChunksFirst(k, seed, chunks);
      if |s| < |first| {
        assert s < first;
        CutChunkDoesNotParse(chunks[0], sig, s);
      } else {
        assert s == first + s[|first|..] && s[|first|..] <= rest;
        UnterminatedDoesNotParse(k, sig, chunks[1..], s[|first|..]);
        ParseStep(k, seed, chunks[0], s[|first|..]);
        assert chunks[0] in chunks;
      }
    }
  }

  lemma MismatchNeverCompletes(r: StreamingReader)
    requires r.Valid() && |r.baseReader.bytes| != r.contentLen
    ensures ParseStream(r.signing, r.seedSignature, r.delivered) == None
  {
    assert r.delivered <= r.delivered + r.buf;
    UnterminatedDoesNotParse(r.signing, r.seedSignature, r.chunks, r.delivered);
  }

  /** A caller that reads to the end with buffers of any sizes. */
  method ReadToEnd(r: StreamingReader) returns (all: Bytes, err: ReadError)
    requires r.Valid() && !r.done && r.delivered == ""
    modifies r, r.baseReader, r.chunkBuf
    ensures all == r.delivered
    ensures |r.baseReader.bytes| == r.contentLen ==>
      && err == EOF
      && all == Encoding(r.signing, r.seedSignature, r.baseReader.bytes)
      && ParseStream(r.signing, r.seedSignature, all) == Some(r.baseReader.bytes)
    ensures |r.baseReader.bytes| != r.contentLen ==>
      err == LengthMismatch && ParseStream(r.signing, r.seedSignature, all) == None
  {
    all, err := "", NoError;
    while err == NoError
      invariant r.Valid() && all == r.delivered
      invariant err == NoError ==> (r.done ==> |r.baseReader.bytes| == r.contentLen)
      invariant err == EOF ==> |r.baseReader.bytes| == r.contentLen
                               && all == SignedChunks(r.signing, r.seedSignature, r.chunks) && r.done
      invariant err == LengthMismatch ==> |r.baseReader.bytes| != r.contentLen
      decreases err == NoError, |r.baseReader.bytes| - r.bytesRead, !r.done, |r.buf|
    {
      var size: nat :| size > 0;
      var b := new char[size];
      var n;
      n, err := r.Read(b);
      all := all + b[..n];
    }
    if err == EOF {
      ParseEncoding(r.signing, r.seedSignature, r.baseReader.bytes);
    } else {
      MismatchNeverCompletes(r);
    }
  }
}
