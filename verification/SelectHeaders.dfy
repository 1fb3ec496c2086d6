/**
 The headers of an S3 Select message: how the decoder reads them from the bytes in front of a
 payload, an encoder, and the proof that reading inverts encoding. A byte is written as one
 character.
*/
module SelectHeaders {
  import opened Wrappers

  type Bytes = string

  const TWO_TO_32: nat := 0x1_0000_0000

  type uint32 = n: nat | n < TWO_TO_32

  function Take(b: Bytes, n: nat): Bytes {
    if n <= |b| then b[..n] else b
  }

  function Drop(b: Bytes, n: nat): Bytes {
    if n <= |b| then b[n..] else ""
  }

  lemma TakeDrop(a: Bytes, rest: Bytes)
    ensures Take(a + rest, |a|) == a && Drop(a + rest, |a|) == rest
  {
    assert (a + rest)[..|a|] == a && (a + rest)[|a|..] == rest;
  }

  // ----- numbers on the wire -----

  function U8(b: Bytes): nat
    requires |b| >= 1
  {
    b[0] as nat
  }

  function U16(b: Bytes): nat
    requires |b| >= 2
  {
    b[0] as nat * 0x100 + b[1] as nat
  }

  function U32(b: Bytes): nat
    requires |b| >= 4
  {
    U16(b) * 0x1_0000 + (b[2] as nat * 0x100 + b[3] as nat)
  }

  function Put8(n: nat): Bytes
    requires n < 0x100
  {
    [n as char]
  }

  function Put16(n: nat): Bytes
    requires n < 0x1_0000
  {
    Put8(n / 0x100) + Put8(n % 0x100)
  }

  function Put32(n: nat): Bytes
    requires n < TWO_TO_32
  {
    Put16(n / 0x1_0000) + Put16(n % 0x1_0000)
  }

  /** Four bytes, the most significant one first. */
  lemma BigEndian(b: Bytes)
    requires |b| >= 4
    ensures U32(b) == b[0] as nat * 0x100_0000 + b[1] as nat * 0x1_0000 + b[2] as nat * 0x100 + b[3] as nat
    ensures U16(b) == b[0] as nat * 0x100 + b[1] as nat
  {
  }

  lemma U16Put(n: nat, rest: Bytes)
    requires n < 0x1_0000
    ensures |Put16(n)| == 2 && U16(Put16(n) + rest) == n
  {
    assert n == n / 0x100 * 0x100 + n % 0x100;
  }

  lemma U32Put(n: nat, rest: Bytes)
    requires n < TWO_TO_32
    ensures |Put32(n)| == 4 && U32(Put32(n) + rest) == n
  {
    U16Put(n / 0x1_0000, Put16(n % 0x1_0000) + rest);
    U16Put(n % 0x1_0000, rest);
    assert Put32(n) + rest == Put16(n / 0x1_0000) + (Put16(n % 0x1_0000) + rest);
  }

  // ----- headers -----

  predicate IsTokenChar(c: char) {
    || 'a' <= c <= 'z' || 'A' <= c <= 'Z' || '0' <= c <= '9'
    || c in "!#$%&'*+-.^_`|~"
  }

  function Upper(c: char): char {
    if 'a' <= c <= 'z' then c - 'a' + 'A' else c
  }

  function Lower(c: char): char {
    if 'A' <= c <= 'Z' then c - 'A' + 'a' else c
  }

  /** The first letter and every letter behind a hyphen upper case, the others lower case. */
  function Capitalized(s: string, first: bool): string {
    if s == "" then "" else [if first then Upper(s[0]) else Lower(s[0])] + Capitalized(s[1..], s[0] == '-')
  }

  /** The key that a header is stored under. */
  function CanonicalKey(s: string): string {
    if forall i :: 0 <= i < |s| ==> IsTokenChar(s[i]) then Capitalized(s, true) else s
  }

  function TrimColon(s: string): string {
    if s != "" && s[0] == ':' then s[1..] else s
  }

  type HeaderMap = map<string, string>

  function Get(m: HeaderMap, key: string): string {
    if CanonicalKey(key) in m then m[CanonicalKey(key)] else ""
  }

  function Put(m: HeaderMap, name: string, value: string): HeaderMap {
    m[CanonicalKey(TrimColon(name)) := value]
  }

  datatype ReadError = EndOfFile | UnexpectedEOF

  /** A single Read of n bytes: it fails only when nothing at all is left; a short read
      leaves the rest of the buffer zero. */
  function ReadString(w: Bytes, n: nat): Result<(string, Bytes), ReadError> {
    if w == "" then Err(EndOfFile)
    else if n <= |w| then Ok((w[..n], w[n..]))
    else Ok((w + Zeros(n - |w|), ""))
  }

  function Zeros(n: nat): Bytes {
    seq(n, i => '\0')
  }

  /** A header's name: a byte of length, and the name. */
  function ReadName(w: Bytes): Result<(string, Bytes), ReadError> {
    if w == "" then Err(EndOfFile) else ReadString(w[1..], U8(w))
  }

  /** A header's value: two bytes of length, and the value. */
  function ReadValue(w: Bytes): Result<(string, Bytes), ReadError> {
    if w == "" then Err(EndOfFile)
    else if |w| == 1 then Err(UnexpectedEOF)
    else ReadString(w[2..], U16(w))
  }

  /** The headers in the window w of a message. Running out of bytes in front of or inside
      a name ends the headers; running out later is an error. */
  function ParseHeaders(w: Bytes, m: HeaderMap): Result<HeaderMap, ReadError>
    decreases |w|
  {
    match ReadName(w)
    case Err(_) => Ok(m)
    case Ok((name, w1)) =>
      match ReadValue(Drop(w1, 1))
      case Err(e) => Err(e)
      case Ok((value, w3)) => ParseHeaders(w3, Put(m, name, value))
  }

  // ----- the encoder -----

  datatype Header = Header(name: string, value: string)

  /** A header the format can carry and the decoder can read: nonempty name and value. */
  predicate HeaderFits(h: Header) {
    0 < |h.name| < 0x100 && 0 < |h.value| < 0x1_0000
  }

  function EncodeHeader(h: Header): Bytes
    requires HeaderFits(h)
  {
    Put8(|h.name|) + h.name + [7 as char] + Put16(|h.value|) + h.value
  }

  predicate HeadersFit(hs: seq<Header>) {
    forall i :: 0 <= i < |hs| ==> HeaderFits(hs[i])
  }

  function EncodeHeaders(hs: seq<Header>): Bytes
    requires HeadersFit(hs)
  {
    if hs == [] then "" else EncodeHeader(hs[0]) + EncodeHeaders(hs[1..])
  }

  function HeadersOf(hs: seq<Header>, m: HeaderMap): HeaderMap {
    if hs == [] then m else HeadersOf(hs[1..], Put(m, hs[0].name, hs[0].value))
  }

  // ----- reading inverts encoding -----

  lemma ReadsString(t: string, rest: Bytes)
    requires t != ""
    ensures ReadString(t + rest, |t|) == Ok((t, rest))
  {
    assert (t + rest)[..|t|] == t && (t + rest)[|t|..] == rest;
  }

  lemma ReadsName(name: string, rest: Bytes)
    requires 0 < |name| < 0x100
    ensures ReadName(Put8(|name|) + (name + rest)) == Ok((name, rest))
  {
    ReadsString(name, rest);
    assert (Put8(|name|) + (name + rest))[1..] == name + rest;
  }

  lemma ReadsValue(value: string, rest: Bytes)
    requires 0 < |value| < 0x1_0000
    ensures ReadValue(Put16(|value|) + (value + rest)) == Ok((value, rest))
  {
    ReadsString(value, rest);
    U16Put(|value|, value + rest);
    assert (Put16(|value|) + (value + rest))[2..] == value + rest;
  }

  lemma HeaderParts(h: Header, rest: Bytes)
    requires HeaderFits(h)
    ensures EncodeHeader(h) + rest
         == Put8(|h.name|) + (h.name + ([7 as char] + (Put16(|h.value|) + (h.value + rest))))
  {
  }

  lemma ParseHeader(h: Header, rest: Bytes, m: HeaderMap)
    requires HeaderFits(h)
    ensures ParseHeaders(EncodeHeader(h) + rest, m) == ParseHeaders(rest, Put(m, h.name, h.value))
  {
    var w2 := Put16(|h.value|) + (h.value + rest);
    HeaderParts(h, rest);
    ReadsName(h.name, [7 as char] + w2);
    assert Drop([7 as char] + w2, 1) == w2;
    ReadsValue(h.value, rest);
  }

  lemma {:induction false} ParseEncodedHeaders(hs: seq<Header>, m: HeaderMap)
    requires HeadersFit(hs)
    ensures ParseHeaders(EncodeHeaders(hs), m) == Ok(HeadersOf(hs, m))
    decreases |hs|
  {
    if hs != [] {
      ParseHeader(hs[0], EncodeHeaders(hs[1..]), m);
      ParseEncodedHeaders(hs[1..], Put(m, hs[0].name, hs[0].value));
    }
  }

  // ----- cut headers -----

  /** What the parser makes of a header of which j bytes are there, behind the headers in m. */
  function CutHeader(h: Header, j: nat, m: HeaderMap): Result<HeaderMap, ReadError>
    requires HeaderFits(h) && j < |EncodeHeader(h)|
  {
    var n := |h.name|;
    if j <= 1 then Ok(m)
    else if j == n + 3 then Err(UnexpectedEOF)
    else if j <= n + 4 then Err(EndOfFile)
    else Ok(Put(m, h.name, h.value[..j - n - 4] + Zeros(|h.value| - (j - n - 4))))
  }

  lemma ParseCutName(h: Header, j: nat, m: HeaderMap)
    requires HeaderFits(h) && 1 <= j <= |h.name| + 1
    ensures ParseHeaders(EncodeHeader(h)[..j], m) == CutHeader(h, j, m)
  {
    var w := EncodeHeader(h)[..j];
    assert U8(w) == |h.name| && w[1..] == h.name[..j - 1];
    var r := ReadString(w[1..], |h.name|);
    if j > 1 {
      assert r.Ok? && r.value.1 == "";
    }
  }

  lemma ParseCutBehindName(h: Header, w1: Bytes, m: HeaderMap)
    requires HeaderFits(h)
    ensures var r := ReadValue(Drop(w1, 1));
            ParseHeaders(Put8(|h.name|) + (h.name + w1), m)
            == if r.Err? then Err(r.error) else ParseHeaders(r.value.1, Put(m, h.name, r.value.0))
  {
    ReadsName(h.name, w1);
  }

  lemma ReadCutValue(value: string, k: nat)
    requires 0 < |value| < 0x1_0000 && k < |value| + 2
    ensures var w := (Put16(|value|) + value)[..k];
            ReadValue(w) == if k == 1 then Err(UnexpectedEOF)
                            else if k <= 2 then Err(EndOfFile)
                            else Ok((value[..k - 2] + Zeros(|value| - (k - 2)), ""))
  {
    var w := (Put16(|value|) + value)[..k];
    if k >= 2 {
      assert w == Put16(|value|) + value[..k - 2];
      U16Put(|value|, value[..k - 2]);
      assert w[2..] == value[..k - 2];
    }
  }

  lemma CutHeaderParts(h: Header, j: nat)
    requires HeaderFits(h) && |h.name| + 2 <= j < |EncodeHeader(h)|
    ensures var v := (Put16(|h.value|) + h.value)[..j - |h.name| - 2];
            EncodeHeader(h)[..j] == Put8(|h.name|) + (h.name + ([7 as char] + v))
  {
    assert EncodeHeader(h) == Put8(|h.name|) + (h.name + ([7 as char] + (Put16(|h.value|) + h.value)));
  }

  lemma ParseCutValue(h: Header, j: nat, m: HeaderMap)
    requires HeaderFits(h) && |h.name| + 2 <= j < |EncodeHeader(h)|
    ensures ParseHeaders(EncodeHeader(h)[..j], m) == CutHeader(h, j, m)
  {
    var k := j - |h.name| - 2;
    var v := (Put16(|h.value|) + h.value)[..k];
    CutHeaderParts(h, j);
    ParseCutBehindName(h, [7 as char] + v, m);
    assert Drop([7 as char] + v, 1) == v;
    ReadCutValue(h.value, k);
    if k > 2 {
      ParseNothing(Put(m, h.name, h.value[..k - 2] + Zeros(|h.value| - (k - 2))));
    }
  }

  lemma ParseNothing(m: HeaderMap)
    ensures ParseHeaders("", m) == Ok(m)
  {
  }

  /** One header that is cut. */
  lemma ParseCutHeader(h: Header, j: nat, m: HeaderMap)
    requires HeaderFits(h) && j < |EncodeHeader(h)|
    ensures ParseHeaders(EncodeHeader(h)[..j], m) == CutHeader(h, j, m)
  {
    if j == 0 {
      ParseNothing(m);
    } else if j <= |h.name| + 1 {
      ParseCutName(h, j, m);
    } else {
      ParseCutValue(h, j, m);
    }
  }

  /** The window of a message whose headers are cut inside number i. */
  lemma {:induction false} ParseCutHeaders(hs: seq<Header>, i: nat, j: nat, m: HeaderMap)
    requires HeadersFit(hs) && i < |hs| && j < |EncodeHeader(hs[i])|
    ensures ParseHeaders(EncodeHeaders(hs[..i]) + EncodeHeader(hs[i])[..j], m)
         == CutHeader(hs[i], j, HeadersOf(hs[..i], m))
    decreases i
  {
    var cut := EncodeHeader(hs[i])[..j];
    if i == 0 {
      assert EncodeHeaders(hs[..0]) + cut == cut;
      ParseCutHeader(hs[0], j, m);
    } else {
      var rest := EncodeHeaders(hs[1..i]) + cut;
      assert hs[..i][1..] == hs[1..i] == hs[1..][..i - 1];
      assert EncodeHeaders(hs[..i]) + cut == EncodeHeader(hs[0]) + rest;
      ParseHeader(hs[0], rest, m);
      ParseCutHeaders(hs[1..], i - 1, j, Put(m, hs[0].name, hs[0].value));
    }
  }
}
