/**
 Composing an object from ranges of existing ones by server-side copies: validation, the even
 split of each source into parts, and the two ways to copy. The server is given by the sources'
 contents and by `rejects`, its answer to a part number, to 0 for the copy in one request and
 to COMPLETION for the end of the upload.
*/
module Compose {
  import opened Wrappers
  import opened PartSize

  const COMPLETION: int := -1

  type Content = seq<int>

  /** A source: the object's content, whether it can be looked up, and the requested range
      (start is -1 for the whole object, otherwise 0 <= start <= end). */
  datatype SourceRecord = SourceInfo(content: Content, found: bool, clientEncrypted: bool, start: int, end: int)

  type SourceInfo = s: SourceRecord | s.start == -1 || 0 <= s.start <= s.end
    witness SourceInfo([], true, false, -1, 0)

  datatype ComposeError =
    | BadSourceCount | NotFound(i: int) | ClientEncrypted(i: int) | InvalidSegment(i: int)
    | TooSmall(i: int) | TooLarge | TooManyParts | PartRejected(part: int)

  // ----- parts of one source -----

  /** The largest part that is copied: 5 TiB in 9999 parts, rounded down. */
  const COPY_PART_SIZE: int := MAX_MULTIPART_PUT_OBJECT_SIZE / (MAX_PARTS_COUNT - 1)

  function PartsRequired(size: nat): nat {
    size / COPY_PART_SIZE + if size % COPY_PART_SIZE > 0 then 1 else 0
  }

  /** The length of part j when size bytes are split evenly into k parts. */
  function EvenLength(size: int, k: int, j: int): int
    requires k > 0
  {
    size / k + if j < size % k then 1 else 0
  }

  /** Where part j begins: the longer parts come first. */
  function EvenOffset(size: int, k: int, j: int): int
    requires k > 0
  {
    OffsetOf(size / k, size % k, j)
  }

  function OffsetOf(q: int, r: int, j: int): int {
    j * q + if j < r then j else r
  }

  lemma EvenStep(size: int, k: int, j: int)
    requires k > 0
    ensures EvenOffset(size, k, j + 1) == EvenOffset(size, k, j) + EvenLength(size, k, j)
  {
    assert (j + 1) * (size / k) == j * (size / k) + size / k;
  }

  lemma EvenCovers(size: int, k: int)
    requires k > 0
    ensures EvenOffset(size, k, 0) == 0 && EvenOffset(size, k, k) == size
  {
    DivMod(size, k);
  }

  lemma PartsRequiredIsCeil(size: nat)
    requires size > 0
    ensures var k := PartsRequired(size);
            k >= 1 && (k - 1) * COPY_PART_SIZE < size <= k * COPY_PART_SIZE
  {
  }

  /** A source of the largest size takes as many parts as an upload may have, and a smaller one
      no more. */
  lemma LargestSourceFits(size: nat)
    requires size <= MAX_MULTIPART_PUT_OBJECT_SIZE
    ensures PartsRequired(size) <= PartsRequired(MAX_MULTIPART_PUT_OBJECT_SIZE) == MAX_PARTS_COUNT
  {
    assert COPY_PART_SIZE == 549810794;
    QuotientGrows(size, MAX_MULTIPART_PUT_OBJECT_SIZE, 549810794);
  }

  lemma QuotientGrows(a: nat, b: nat, k: nat)
    requires k > 0 && a <= b
    ensures a / k < b / k || (a / k == b / k && a % k <= b % k)
  {
    DivMod(a, k);
    DivMod(b, k);
    assert (b / k - a / k) * k == b / k * k - a / k * k;
    MulAtLeast(b / k - a / k, k);
  }

  lemma QuotientRange(size: int, k: int, lo: int, hi: int)
    requires k > 0 && k * lo <= size <= k * hi
    ensures lo <= size / k
    ensures size / k <= hi && (size % k > 0 ==> size / k < hi)
  {
    DivMod(size, k);
    var q, r := size / k, size % k;
    assert (lo - q) * k == lo * k - q * k;
    assert (q - hi) * k == q * k - hi * k;
    MulAtLeast(lo - q, k);
    MulAtLeast(q - hi, k);
    assert q == hi ==> q * k == hi * k;
  }

  /** No part is larger than the copy part size; none is below 5 MiB unless the source is. */
  lemma EvenLengthBounds(size: nat, j: int)
    requires size > 0 && 0 <= j < PartsRequired(size)
    ensures var l := EvenLength(size, PartsRequired(size), j);
            && 0 < l <= COPY_PART_SIZE <= MAX_PART_SIZE
            && (size >= ABS_MIN_PART_SIZE ==> l >= ABS_MIN_PART_SIZE)
  {
    var k := PartsRequired(size);
    PartsRequiredIsCeil(size);
    if k == 1 {
      QuotientRange(size, 1, size, size);
    } else {
      HalfFits(size, k);
      QuotientRange(size, k, ABS_MIN_PART_SIZE, COPY_PART_SIZE);
    }
  }

  lemma HalfFits(size: int, k: int)
    requires k >= 2 && (k - 1) * COPY_PART_SIZE < size
    ensures k * ABS_MIN_PART_SIZE <= size
  {
    assert 2 * ABS_MIN_PART_SIZE <= COPY_PART_SIZE;
  }

  /** Two parts of one source differ by at most one byte, and the longer ones come first. */
  lemma EvenLengthsDiffer(size: int, k: int, i: int, j: int)
    requires k > 0
    ensures -1 <= EvenLength(size, k, i) - EvenLength(size, k, j) <= 1
    ensures i <= j ==> EvenLength(size, k, i) >= EvenLength(size, k, j)
  {
  }

  function FirstOf(start: int): int {
    if start == -1 then 0 else start
  }

  /** start..end (inclusive) is part j of the even split of size bytes from first on. */
  predicate SplitAt(size: int, first: int, k: int, j: int, start: int, end: int)
    requires k > 0
  {
    start == first + EvenOffset(size, k, j) && end - start + 1 == EvenLength(size, k, j)
  }

  /** Fills the start and end of each part of a source. */
  method CalculateEvenSplits(size: nat, start: int) returns (startIndex: array<int>, endIndex: array<int>)
    ensures fresh(startIndex) && fresh(endIndex)
    ensures startIndex.Length == endIndex.Length == PartsRequired(size)
    ensures forall j :: 0 <= j < startIndex.Length ==>
      SplitAt(size, FirstOf(start), startIndex.Length, j, startIndex[j], endIndex[j])
  {
    if size == 0 {
      return new int[0], new int[0];
    }
    var reqParts := PartsRequired(size);
    PartsRequiredIsCeil(size);
    startIndex := new int[reqParts];
    endIndex := new int[reqParts];
    var first := FirstOf(start);
    var quot, rem := size / reqParts, size % reqParts;
    var nextStart := first;
    EvenCovers(size, reqParts);
    for j := 0 to reqParts
      invariant nextStart == first + EvenOffset(size, reqParts, j)
      invariant forall i :: 0 <= i < j ==> SplitAt(size, first, reqParts, i, startIndex[i], endIndex[i])
    {
      var curPartSize := quot;
      if j < rem {
        curPartSize := curPartSize + 1;
      }
      var cStart := nextStart;
      var cEnd := cStart + curPartSize - 1;
      nextStart := cEnd + 1;
      startIndex[j], endIndex[j] := cStart, cEnd;
      EvenStep(size, reqParts, j);
    }
  }

  // ----- what is asked for -----

  /** The number of bytes a source contributes. */
  function SourceSize(s: SourceInfo): nat {
    if s.start == -1 then |s.content| else s.end - s.start + 1
  }

  function First(s: SourceInfo): int {
    FirstOf(s.start)
  }

  predicate InBounds(s: SourceInfo) {
    s.start == -1 || s.end < |s.content|
  }

  /** The bytes a source contributes. */
  function Requested(s: SourceInfo): Content
    requires InBounds(s)
  {
    s.content[First(s)..First(s) + SourceSize(s)]
  }

  function TotalSize(srcs: seq<SourceInfo>): nat {
    if srcs == [] then 0 else TotalSize(srcs[..|srcs| - 1]) + SourceSize(srcs[|srcs| - 1])
  }

  function TotalParts(srcs: seq<SourceInfo>): nat {
    if srcs == [] then 0
    else TotalParts(srcs[..|srcs| - 1]) + PartsRequired(SourceSize(srcs[|srcs| - 1]))
  }

  function Concatenated(srcs: seq<SourceInfo>): Content
    requires forall i :: 0 <= i < |srcs| ==> InBounds(srcs[i])
  {
    if srcs == [] then [] else Concatenated(srcs[..|srcs| - 1]) + Requested(srcs[|srcs| - 1])
  }

  /** The checks on one source of n. */
  predicate SourceAccepted(s: SourceInfo, i: int, n: int) {
    && s.found
    && (n > 1 ==> !s.clientEncrypted)
    && InBounds(s)
    && (i < n - 1 ==> SourceSize(s) >= ABS_MIN_PART_SIZE)
  }

  /** What validation accepts, said of the request as a whole. */
  predicate Accepted(srcs: seq<SourceInfo>) {
    && 1 <= |srcs| <= MAX_PARTS_COUNT
    && (forall i :: 0 <= i < |srcs| ==> SourceAccepted(srcs[i], i, |srcs|))
    && TotalSize(srcs) <= MAX_MULTIPART_PUT_OBJECT_SIZE
    && TotalParts(srcs) <= MAX_PARTS_COUNT
  }

  /** The request gives this reason to refuse it. */
  predicate Refutes(e: ComposeError, srcs: seq<SourceInfo>) {
    match e
    case BadSourceCount => |srcs| < 1 || |srcs| > MAX_PARTS_COUNT
    case NotFound(i) => 0 <= i < |srcs| && !srcs[i].found
    case ClientEncrypted(i) => 0 <= i < |srcs| && |srcs| > 1 && srcs[i].clientEncrypted
    case InvalidSegment(i) => 0 <= i < |srcs| && srcs[i].start != -1 && srcs[i].end >= |srcs[i].content|
    case TooSmall(i) => 0 <= i < |srcs| - 1 && InBounds(srcs[i]) && SourceSize(srcs[i]) < ABS_MIN_PART_SIZE
    case TooLarge => TotalSize(srcs) > MAX_MULTIPART_PUT_OBJECT_SIZE
    case TooManyParts => TotalParts(srcs) > MAX_PARTS_COUNT
    case PartRejected(_) => false
  }

  lemma {:induction false} TotalsGrow(srcs: seq<SourceInfo>, i: nat)
    requires i <= |srcs|
    ensures TotalSize(srcs[..i]) <= TotalSize(srcs)
    ensures TotalParts(srcs[..i]) <= TotalParts(srcs)
    decreases |srcs|
  {
    if i < |srcs| {
      var init := srcs[..|srcs| - 1];
      TotalsGrow(init, i);
      assert init[..i] == srcs[..i];
    } else {
      assert srcs[..i] == srcs;
      if srcs != [] {
        TotalsGrow(srcs[..|srcs| - 1], 0);
        assert srcs[..|srcs| - 1][..0] == [];
      }
    }
  }

  /** The checks of the loop body on one source. */
  method CheckSource(src: SourceInfo, i: int, n: int, ghost srcs: seq<SourceInfo>)
    returns (err: Option<ComposeError>, size: nat)
    requires 0 <= i < |srcs| == n && src == srcs[i]
    ensures err != None ==> Refutes(err.value, srcs)
    ensures err == None <==> SourceAccepted(src, i, n)
    ensures err == None ==> size == SourceSize(src)
  {
    size := |src.content|;
    if !src.found {
      return Some(NotFound(i)), size;
    }
    if n > 1 && src.clientEncrypted {
      return Some(ClientEncrypted(i)), size;
    }
    if src.start != -1 {
      if src.end >= size {
        return Some(InvalidSegment(i)), size;
      }
      size := src.end - src.start + 1;
    }
    if size < ABS_MIN_PART_SIZE && i < n - 1 {
      return Some(TooSmall(i)), size;
    }
    return None, size;
  }

  /** The totals after one more source; totals that are too large already refute the request. */
  lemma TotalsStep(srcs: seq<SourceInfo>, i: nat)
    requires i < |srcs|
    ensures TotalSize(srcs[..i + 1]) == TotalSize(srcs[..i]) + SourceSize(srcs[i])
    ensures TotalParts(srcs[..i + 1]) == TotalParts(srcs[..i]) + PartsRequired(SourceSize(srcs[i]))
    ensures TotalSize(srcs[..i + 1]) > MAX_MULTIPART_PUT_OBJECT_SIZE ==> Refutes(TooLarge, srcs)
    ensures TotalParts(srcs[..i + 1]) > MAX_PARTS_COUNT ==> Refutes(ComposeError.TooManyParts, srcs)
  {
    SumsStep(srcs, i);
    TotalsGrow(srcs, i + 1);
  }

  lemma SumsStep(srcs: seq<SourceInfo>, i: nat)
    requires i < |srcs|
    ensures TotalSize(srcs[..i + 1]) == TotalSize(srcs[..i]) + SourceSize(srcs[i])
    ensures TotalParts(srcs[..i + 1]) == TotalParts(srcs[..i]) + PartsRequired(SourceSize(srcs[i]))
  {
    assert srcs[..i + 1][..i] == srcs[..i];
  }

  /** The validation loop: it accepts exactly the requests that `Accepted` describes. */
  method Validate(srcs: seq<SourceInfo>)
    returns (err: Option<ComposeError>, srcSizes: seq<nat>, totalSize: nat, totalParts: nat)
    ensures err == None <==> Accepted(srcs)
    ensures err != None ==> Refutes(err.value, srcs)
    ensures err == None ==>
      && totalSize == TotalSize(srcs) && totalParts == TotalParts(srcs)
      && |srcSizes| == |srcs|
      && forall i :: 0 <= i < |srcs| ==> srcSizes[i] == SourceSize(srcs[i])
  {
    err, srcSizes, totalSize, totalParts := None, [], 0, 0;
    if |srcs| < 1 || |srcs| > MAX_PARTS_COUNT {
      return Some(BadSourceCount), [], 0, 0;
    }
    var i := 0;
    while i < |srcs|
      invariant 0 <= i == |srcSizes| <= |srcs|
      invariant forall j :: 0 <= j < i ==> SourceAccepted(srcs[j], j, |srcs|)
      invariant totalSize == TotalSize(srcs[..i]) <= MAX_MULTIPART_PUT_OBJECT_SIZE
      invariant totalParts == TotalParts(srcs[..i]) <= MAX_PARTS_COUNT
      invariant forall j :: 0 <= j < i ==> srcSizes[j] == SourceSize(srcs[j])
    {
      TotalsStep(srcs, i);
      var e, size := CheckSource(srcs[i], i, |srcs|, srcs);
      if e != None {
        return e, [], 0, 0;
      }
      totalSize := totalSize + size;
      if totalSize > MAX_MULTIPART_PUT_OBJECT_SIZE {
        return Some(TooLarge), [], 0, 0;
      }
      srcSizes := srcSizes + [size];
      totalParts := totalParts + PartsRequired(size);
      if totalParts > MAX_PARTS_COUNT {
        return Some(ComposeError.TooManyParts), [], 0, 0;
      }
      i := i + 1;
    }
    assert srcs[..i] == srcs;
  }

  // ----- copying -----

  /** One part of the multipart copy: bytes start..end (inclusive) of source src. */
  datatype Part = Part(number: int, src: int, start: int, end: int)

  function PartLength(p: Part): int {
    p.end - p.start + 1
  }

  /** The parts an upload may be completed with: numbered from 1, none too large, and only
      the very last of the whole upload, number n, below 5 MiB. */
  predicate PartsOk(parts: seq<Part>, n: int) {
    forall q :: 0 <= q < |parts| ==>
      && parts[q].number == q + 1
      && 0 < PartLength(parts[q]) <= MAX_PART_SIZE
      && (q + 1 < n ==> PartLength(parts[q]) >= ABS_MIN_PART_SIZE)
  }

  /** The bytes that a part names. */
  function PartBytes(srcs: seq<SourceInfo>, p: Part): Content {
    if 0 <= p.src < |srcs| && 0 <= p.start <= p.end + 1 <= |srcs[p.src].content|
    then srcs[p.src].content[p.start..p.end + 1]
    else []
  }

  /** What the server puts together from the listed parts. */
  function Assembled(srcs: seq<SourceInfo>, parts: seq<Part>): Content {
    if parts == [] then [] else Assembled(srcs, parts[..|parts| - 1]) + PartBytes(srcs, parts[|parts| - 1])
  }

  lemma GlueBehind(before: Content, content: Content, first: int, lo: int, hi: int)
    requires 0 <= first <= lo <= hi <= |content|
    ensures (before + content[first..lo]) + content[lo..hi] == before + content[first..hi]
  {
  }

  lemma AssembledSnoc(srcs: seq<SourceInfo>, parts: seq<Part>, p: Part)
    ensures Assembled(srcs, parts + [p]) == Assembled(srcs, parts) + PartBytes(srcs, p)
  {
    assert (parts + [p])[..|parts|] == parts;
  }

  lemma SplitOfSource(src: SourceInfo, j: nat)
    requires InBounds(src) && j < PartsRequired(SourceSize(src))
    ensures var size, k := SourceSize(src), PartsRequired(SourceSize(src));
            && 0 <= EvenOffset(size, k, j) < EvenOffset(size, k, j + 1) <= size
            && EvenOffset(size, k, j + 1) == EvenOffset(size, k, j) + EvenLength(size, k, j)
            && First(src) + size <= |src.content|
  {
    var size, k := SourceSize(src), PartsRequired(SourceSize(src));
    EvenStep(size, k, j);
    EvenLengthBounds(size, j);
    OffsetInRange(size, k, j);
    OffsetInRange(size, k, j + 1);
  }

  lemma OffsetInRange(size: nat, k: nat, j: nat)
    requires k > 0 && j <= k
    ensures 0 <= EvenOffset(size, k, j) <= size
  {
    DivMod(size, k);
    QuotientIsNat(size, k, size / k, size % k);
    OffsetBounds(size, k, j, size / k, size % k);
  }

  lemma QuotientIsNat(size: nat, k: nat, q: int, r: int)
    requires k > 0 && size == q * k + r && r < k
    ensures q >= 0
  {
    MulAtLeast(q, k);
  }

  lemma OffsetBounds(size: nat, k: nat, j: nat, q: int, r: int)
    requires size == q * k + r && 0 <= r < k && q >= 0 && j <= k
    ensures 0 <= OffsetOf(q, r, j) <= size
  {
    Nonnegative(j, q);
    Nonnegative(k - j, q);
    assert (k - j) * q == q * k - j * q;
  }

  /** Where the part that the split gives as start..end lies. */
  lemma PartPlace(src: SourceInfo, size: nat, k: nat, j: nat, start: int, end: int)
    requires InBounds(src) && size == SourceSize(src) && j < k == PartsRequired(size)
    requires SplitAt(size, First(src), k, j, start, end)
    ensures start == First(src) + EvenUpto(size, j) && end + 1 == First(src) + EvenUpto(size, j + 1)
    ensures 0 <= EvenUpto(size, j) <= EvenUpto(size, j + 1) <= size
    ensures First(src) + size <= |src.content|
  {
    SplitOfSource(src, j);
  }

  /** The next part of the split keeps the upload's parts within the limits. */
  lemma NextPartIsOk(size: nat, k: nat, j: nat, first: int, parts: seq<Part>, done: nat, n: int, p: Part)
    requires j < k == PartsRequired(size) && done + k <= n
    requires size < ABS_MIN_PART_SIZE ==> done + k == n
    requires PartsOk(parts, n) && |parts| == done + j
    requires p.number == |parts| + 1
    requires SplitAt(size, first, k, j, p.start, p.end)
    ensures PartsOk(parts + [p], n)
  {
    PartIsOk(size, j, done, n);
  }

  /** The parts list j parts of source src behind what was listed before it, within the limits. */
  predicate ListedUpto(srcs: seq<SourceInfo>, src: SourceInfo, size: nat, j: nat, before: Content,
                       done: nat, n: int, parts: seq<Part>)
    requires 0 <= First(src) && First(src) + size <= |src.content|
  {
    && 0 <= EvenUpto(size, j) <= size
    && Assembled(srcs, parts) == before + src.content[First(src)..First(src) + EvenUpto(size, j)]
    && PartsOk(parts, n) && |parts| == done + j
  }

  /** The next part of a source, which begins at offset `from`, behind those before it. */
  lemma AssembledNext(srcs: seq<SourceInfo>, src: SourceInfo, first: int, from: int, before: Content,
                      parts: seq<Part>, p: Part)
    requires 0 <= p.src < |srcs| && srcs[p.src] == src
    requires 0 <= first <= from == p.start <= p.end + 1 <= |src.content|
    requires Assembled(srcs, parts) == before + src.content[first..from]
    ensures Assembled(srcs, parts + [p]) == before + src.content[first..p.end + 1]
  {
    GlueBehind(before, src.content, first, from, p.end + 1);
    AssembledSnoc(srcs, parts, p);
  }

  /** Copies part j of source i behind what was copied of it, and lists the part. */
  method CopyPart(ghost srcs: seq<SourceInfo>, src: SourceInfo, i: int, n: int, size: nat, j: nat,
                  start: int, end: int, ghost before: Content, ghost done: nat, objParts: seq<Part>, rejects: int -> bool)
    returns (err: Option<ComposeError>, listed: seq<Part>)
    requires 0 <= i < |srcs| && srcs[i] == src
    requires size == SourceSize(src) && InBounds(src) && j < PartsRequired(size) && done + PartsRequired(size) <= n
    requires size < ABS_MIN_PART_SIZE ==> done + PartsRequired(size) == n
    requires SplitAt(size, First(src), PartsRequired(size), j, start, end)
    requires 0 <= First(src) && First(src) + size <= |src.content|
    requires ListedUpto(srcs, src, size, j, before, done, n, objParts)
    ensures err != None ==> exists p :: rejects(p)
    ensures err == None ==> ListedUpto(srcs, src, size, j + 1, before, done, n, listed)
  {
    if rejects(|objParts| + 1) {
      return Some(PartRejected(|objParts| + 1)), objParts;
    }
    var part := Part(|objParts| + 1, i, start, end);
    PartPlace(src, size, PartsRequired(size), j, start, end);
    AssembledNext(srcs, src, First(src), First(src) + EvenUpto(size, j), before, objParts, part);
    NextPartIsOk(size, PartsRequired(size), j, First(src), objParts, done, n, part);
    return None, objParts + [part];
  }

  lemma ListedNothing(srcs: seq<SourceInfo>, src: SourceInfo, size: nat, n: int, parts: seq<Part>)
    requires 0 <= First(src) && First(src) + size <= |src.content| && PartsOk(parts, n)
    ensures ListedUpto(srcs, src, size, 0, Assembled(srcs, parts), |parts|, n, parts)
  {
    EvenStart(size);
    assert Assembled(srcs, parts) + [] == Assembled(srcs, parts);
  }

  lemma ListedAll(srcs: seq<SourceInfo>, src: SourceInfo, size: nat, before: Content, done: nat, n: int, parts: seq<Part>)
    requires InBounds(src) && size == SourceSize(src)
    requires 0 <= First(src) && First(src) + size <= |src.content|
    requires ListedUpto(srcs, src, size, PartsRequired(size), before, done, n, parts)
    ensures Assembled(srcs, parts) == before + Requested(src)
    ensures PartsOk(parts, n) && |parts| == done + PartsRequired(size)
  {
    EvenEnd(size);
  }

  lemma SourceFits(src: SourceInfo)
    requires InBounds(src)
    ensures 0 <= First(src) && First(src) + SourceSize(src) <= |src.content|
  {
  }

  predicate SplitsInto(startIdx: array<int>, endIdx: array<int>, size: nat, first: int)
    reads startIdx, endIdx
  {
    && startIdx.Length == endIdx.Length == PartsRequired(size)
    && forall i :: 0 <= i < startIdx.Length ==>
         SplitAt(size, first, PartsRequired(size), i, startIdx[i], endIdx[i])
  }

  /** Copies the parts of source i behind those listed before. */
  method CopySource(ghost srcs: seq<SourceInfo>, src: SourceInfo, i: int, n: int, size: nat,
                    parts: seq<Part>, rejects: int -> bool)
    returns (err: Option<ComposeError>, objParts: seq<Part>)
    requires 0 <= i < |srcs| && srcs[i] == src
    requires size == SourceSize(src) && InBounds(src)
    requires PartsOk(parts, n)
    requires |parts| + PartsRequired(size) <= n
    requires size < ABS_MIN_PART_SIZE ==> |parts| + PartsRequired(size) == n
    ensures err == None ==> Assembled(srcs, objParts) == Assembled(srcs, parts) + Requested(src)
    ensures err == None ==> PartsOk(objParts, n) && |objParts| == |parts| + PartsRequired(size)
    ensures err != None ==> exists p :: rejects(p)
  {
    err, objParts := None, parts;
    ghost var before := Assembled(srcs, parts);
    var startIdx, endIdx := CalculateEvenSplits(size, src.start);
    var j := 0;
    SourceFits(src);
    ListedNothing(srcs, src, size, n, parts);
    while j < startIdx.Length
      invariant j <= startIdx.Length && SplitsInto(startIdx, endIdx, size, First(src))
      invariant err == None && ListedUpto(srcs, src, size, j, before, |parts|, n, objParts)
    {
      err, objParts := CopyPart(srcs, src, i, n, size, j, startIdx[j], endIdx[j], before, |parts|, objParts, rejects);
      if err != None {
        return;
      }
      j := j + 1;
    }
    ListedAll(srcs, src, size, before, |parts|, n, objParts);
  }

  /** Where part j of the split begins, also for an empty source. */
  function EvenUpto(size: nat, j: nat): int {
    if size == 0 then 0 else EvenOffset(size, OneOrMore(PartsRequired(size)), j)
  }

  function OneOrMore(k: nat): nat {
    if k == 0 then 1 else k
  }

  lemma EvenStart(size: nat)
    ensures EvenUpto(size, 0) == 0
  {
    EvenCovers(size, OneOrMore(PartsRequired(size)));
  }

  lemma EvenEnd(size: nat)
    ensures EvenUpto(size, PartsRequired(size)) == size
  {
    if size > 0 {
      PartsRequiredIsCeil(size);
      EvenCovers(size, PartsRequired(size));
    }
  }

  lemma PartIsOk(size: nat, j: nat, done: nat, n: int)
    requires j < PartsRequired(size) && done + PartsRequired(size) <= n
    requires size < ABS_MIN_PART_SIZE ==> done + PartsRequired(size) == n
    ensures var l := EvenLength(size, PartsRequired(size), j);
            0 < l <= MAX_PART_SIZE && (done + j + 1 < n ==> l >= ABS_MIN_PART_SIZE)
  {
    EvenLengthBounds(size, j);
    if size < ABS_MIN_PART_SIZE {
      PartsRequiredIsCeil(size);
    }
  }

  /** What source i adds, and why its parts are within the limits of the whole upload. */
  lemma SourceStep(srcs: seq<SourceInfo>, i: nat)
    requires Accepted(srcs) && i < |srcs|
    ensures var size := SourceSize(srcs[i]);
            && InBounds(srcs[i])
            && Concatenated(srcs[..i + 1]) == Concatenated(srcs[..i]) + Requested(srcs[i])
            && TotalParts(srcs[..i + 1]) == TotalParts(srcs[..i]) + PartsRequired(size) <= TotalParts(srcs)
            && (size < ABS_MIN_PART_SIZE ==> TotalParts(srcs[..i + 1]) == TotalParts(srcs))
  {
    assert forall j :: 0 <= j < |srcs| ==> SourceAccepted(srcs[j], j, |srcs|);
    SumsStep(srcs, i);
    TotalsGrow(srcs, i + 1);
    ConcatenatedStep(srcs, i);
    if i == |srcs| - 1 {
      assert srcs[..i + 1] == srcs;
    }
  }

  lemma ConcatenatedStep(srcs: seq<SourceInfo>, i: nat)
    requires i < |srcs| && forall j :: 0 <= j <= i ==> InBounds(srcs[j])
    ensures Concatenated(srcs[..i + 1]) == Concatenated(srcs[..i]) + Requested(srcs[i])
  {
    assert srcs[..i + 1][..i] == srcs[..i];
  }

  /** The loop over the sources of a multipart copy. */
  method CopySources(srcs: seq<SourceInfo>, srcSizes: seq<nat>, totalParts: nat, rejects: int -> bool)
    returns (err: Option<ComposeError>, objParts: seq<Part>)
    requires Accepted(srcs) && totalParts == TotalParts(srcs) && |srcSizes| == |srcs|
    requires forall i :: 0 <= i < |srcs| ==> srcSizes[i] == SourceSize(srcs[i])
    ensures err != None ==> exists p :: rejects(p)
    ensures err == None ==>
      Assembled(srcs, objParts) == Concatenated(srcs) && PartsOk(objParts, |objParts|) && |objParts| == totalParts
  {
    err, objParts := None, [];
    var i := 0;
    while i < |srcs|
      invariant 0 <= i <= |srcs| && err == None
      invariant Assembled(srcs, objParts) == Concatenated(srcs[..i])
      invariant PartsOk(objParts, totalParts) && |objParts| == TotalParts(srcs[..i])
    {
      SourceStep(srcs, i);
      err, objParts := CopySource(srcs, srcs[i], i, totalParts, srcSizes[i], objParts, rejects);
      if err != None {
        return;
      }
      i := i + 1;
    }
    assert srcs[..i] == srcs;
  }

  /** The sources are one object, to be copied in one request. */
  predicate IsWholeCopy(srcs: seq<SourceInfo>)
    requires srcs != []
  {
    (TotalParts(srcs) == 1 && srcs[0].start == -1 && TotalSize(srcs) <= MAX_PART_SIZE) || TotalSize(srcs) == 0
  }

  /** Composes the sources. The destination is exactly the concatenation of the requested
      ranges: it is the first source's object, copied whole, or what the server assembles from
      the parts that the upload is completed with, which respect the limits. */
  method ComposeObjectWithProgress(srcs: seq<SourceInfo>, rejects: int -> bool)
    returns (err: Option<ComposeError>, objParts: seq<Part>)
    ensures err == None ==> Accepted(srcs)
    ensures err == None ==>
      if IsWholeCopy(srcs) then srcs[0].content == Concatenated(srcs)
      else Assembled(srcs, objParts) == Concatenated(srcs)
    ensures err == None ==> |objParts| <= MAX_PARTS_COUNT && PartsOk(objParts, |objParts|)
    ensures Accepted(srcs) && err != None ==> exists p :: rejects(p)
    ensures !Accepted(srcs) ==> err != None && Refutes(err.value, srcs)
  {
    var srcSizes, totalSize, totalParts;
    objParts := [];
    err, srcSizes, totalSize, totalParts := Validate(srcs);
    if err != None {
      return;
    }
    if (totalParts == 1 && srcs[0].start == -1 && totalSize <= MAX_PART_SIZE) || totalSize == 0 {
      CopyIsWhole(srcs);
      if rejects(0) {
        err := Some(PartRejected(0));
      }
      return;
    }
    err, objParts := CopySources(srcs, srcSizes, totalParts, rejects);
    if err == None && rejects(COMPLETION) {
      err := Some(PartRejected(COMPLETION));
    }
  }

  /** When the shortcut is taken, the first source's whole object is all that was asked for. */
  lemma CopyIsWhole(srcs: seq<SourceInfo>)
    requires Accepted(srcs)
    requires (TotalParts(srcs) == 1 && srcs[0].start == -1) || TotalSize(srcs) == 0
    ensures Concatenated(srcs) == srcs[0].content
  {
    OnlyFirstCounts(srcs, |srcs|);
    assert srcs[..|srcs|] == srcs;
  }

  lemma {:induction false} OnlyFirstCounts(srcs: seq<SourceInfo>, k: nat)
    requires Accepted(srcs) && 1 <= k <= |srcs|
    requires (TotalParts(srcs) == 1 && srcs[0].start == -1) || TotalSize(srcs) == 0
    ensures Concatenated(srcs[..k]) == srcs[0].content
  {
    FirstOfAll(srcs);
    if k == 1 {
      assert srcs[..1][..0] == [];
      assert SourceAccepted(srcs[0], 0, |srcs|);
      assert Concatenated(srcs[..1]) == [] + Requested(srcs[0]);
    } else {
      OnlyFirstCounts(srcs, k - 1);
      assert srcs[..k][..k - 1] == srcs[..k - 1];
      RestIsEmpty(srcs, k);
    }
  }

  lemma FirstOfAll(srcs: seq<SourceInfo>)
    requires Accepted(srcs)
    requires (TotalParts(srcs) == 1 && srcs[0].start == -1) || TotalSize(srcs) == 0
    ensures srcs[0].start == -1
  {
    if TotalSize(srcs) == 0 {
      TotalsGrow(srcs, 1);
      assert srcs[..1][..0] == [];
      assert TotalSize(srcs[..1]) == SourceSize(srcs[0]);
    }
  }

  lemma RestIsEmpty(srcs: seq<SourceInfo>, k: nat)
    requires Accepted(srcs) && 2 <= k <= |srcs|
    requires TotalParts(srcs) == 1 || TotalSize(srcs) == 0
    ensures SourceSize(srcs[k - 1]) == 0
  {
    TotalsGrow(srcs, 1);
    TotalsGrow(srcs, k);
    TotalsGrow(srcs[..k], k - 1);
    assert srcs[..k][..k - 1] == srcs[..k - 1] && srcs[..1][..0] == [];
    assert SourceAccepted(srcs[0], 0, |srcs|);
    PartsRequiredIsCeil(SourceSize(srcs[0]));
    TotalsGrow(srcs[..k - 1], 1);
    assert srcs[..k - 1][..1] == srcs[..1];
    if SourceSize(srcs[k - 1]) > 0 {
      PartsRequiredIsCeil(SourceSize(srcs[k - 1]));
    }
  }
}
