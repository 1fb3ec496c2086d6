/**
 The sequential part uploaders, for a stream of known and of unknown length, and what the
 choice of the part size means for the parallel one. `rejects` is the server's answer to a
 part number.
*/
module StreamUpload {
  import opened Wrappers
  import opened PartSize
  import opened Sequences
  import UploadPool

  datatype UploadError = PartRejected(part: int) | ShortBody(part: int) | MissingPart(part: int) | UnexpectedEOF

  /** A finished upload: the parts as listed for completion, and the parts as stored. */
  datatype Upload = Upload(parts: seq<int>, stored: map<int, seq<int>>)

  /** The bytes that completion puts together. */
  function Assembled(stored: map<int, seq<int>>, parts: seq<int>): seq<int> {
    if parts == [] then []
    else
      var last := parts[|parts| - 1];
      Assembled(stored, parts[..|parts| - 1]) + (if last in stored then stored[last] else [])
  }

  lemma {:induction false} AssembledIgnoresNew(stored: map<int, seq<int>>, k: nat, p: int, content: seq<int>)
    requires k < p
    ensures Assembled(stored[p := content], UploadPool.Upto(1, k)) == Assembled(stored, UploadPool.Upto(1, k))
  {
    if k > 0 {
      var parts := UploadPool.Upto(1, k);
      assert parts[..|parts| - 1] == UploadPool.Upto(1, k - 1) && parts[|parts| - 1] == k;
      AssembledIgnoresNew(stored, k - 1, p, content);
    }
  }

  lemma AssembledNext(stored: map<int, seq<int>>, k: nat, content: seq<int>)
    requires k > 0
    ensures Assembled(stored[k := content], UploadPool.Upto(1, k))
         == Assembled(stored, UploadPool.Upto(1, k - 1)) + content
  {
    var parts := UploadPool.Upto(1, k);
    assert parts[..|parts| - 1] == UploadPool.Upto(1, k - 1) && parts[|parts| - 1] == k;
    AssembledIgnoresNew(stored, k - 1, k, content);
  }

  /** Lists the parts 1..last for completion from what was recorded of them. */
  method ListParts(partsInfo: map<int, int>, last: nat) returns (r: Result<seq<int>, UploadError>)
    requires forall p :: p in partsInfo ==> partsInfo[p] == p
    ensures r.Ok? <==> forall p :: 1 <= p <= last ==> p in partsInfo
    ensures r.Ok? ==> r.value == UploadPool.Upto(1, last) && |r.value| == last
    ensures r.Err? ==> r.error.MissingPart? && 1 <= r.error.part <= last && r.error.part !in partsInfo
  {
    var parts := [];
    var i := 1;
    while i < last + 1
      invariant 1 <= i <= last + 1
      invariant parts == UploadPool.Upto(1, i - 1) && |parts| == i - 1
      invariant forall p :: 1 <= p < i ==> p in partsInfo
    {
      if i !in partsInfo {
        return Err(MissingPart(i));
      }
      parts := parts + [partsInfo[i]];
      i := i + 1;
    }
    return Ok(parts);
  }

  /** k times p, by addition, as the loops count. */
  function Times(k: nat, p: nat): nat {
    if k == 0 then 0 else Times(k - 1, p) + p
  }

  lemma {:induction false} TimesIsProduct(k: nat, p: nat)
    ensures Times(k, p) == k * p
  {
    if k > 0 {
      TimesIsProduct(k - 1, p);
      UploadPool.OneMorePart(k, p);
    }
  }

  lemma {:induction false} TimesMonotone(k: nat, n: nat, p: nat)
    requires k <= n
    ensures Times(k, p) <= Times(n, p)
  {
    if k < n {
      TimesMonotone(k, n - 1, p);
    }
  }

  /** The next part of the data, stored behind the parts before it. */
  lemma StoredNext(stored: map<int, seq<int>>, k: nat, data: seq<int>, lo: nat, hi: nat)
    requires k >= 1 && lo <= hi <= |data|
    requires Assembled(stored, UploadPool.Upto(1, k - 1)) == data[..lo]
    ensures Assembled(stored[k := data[lo..hi]], UploadPool.Upto(1, k)) == data[..hi]
  {
    AssembledNext(stored, k, data[lo..hi]);
    PrefixGrows(data, lo, hi);
  }

  /** Parts 1..k were accepted and recorded, each under its own number. */
  predicate Recorded(partsInfo: map<int, int>, rejects: int -> bool, k: int) {
    && (forall p :: 1 <= p <= k ==> p in partsInfo && !rejects(p))
    && (forall p :: p in partsInfo ==> partsInfo[p] == p)
  }

  /** Uploads one part of the data, and records it. */
  method UploadPart(data: seq<int>, lo: nat, hi: nat, k: nat, stored: map<int, seq<int>>, partsInfo: map<int, int>,
                    rejects: int -> bool)
    returns (err: Option<UploadError>, stored': map<int, seq<int>>, partsInfo': map<int, int>)
    requires k >= 1 && lo <= hi <= |data| && Recorded(partsInfo, rejects, k - 1)
    ensures err == if rejects(k) then Some(PartRejected(k)) else None
    ensures if err == None then stored' == stored[k := data[lo..hi]] && Recorded(partsInfo', rejects, k)
            else stored' == stored && partsInfo' == partsInfo
  {
    if rejects(k) {
      return Some(PartRejected(k)), stored, partsInfo;
    }
    return None, stored[k := data[lo..hi]], partsInfo[k := k];
  }

  // ----- a stream in parts -----

  /** How much of a stream fits into n parts: where part n ends. */
  function Fitting(length: nat, n: nat, partSize: nat): nat {
    if length <= Times(n, partSize) then length else Times(n, partSize)
  }

  lemma FittingGrows(length: nat, k: nat, partSize: nat)
    requires k >= 1
    ensures Fitting(length, k - 1, partSize) <= Fitting(length, k, partSize) <= length
  {
  }

  /** Parts 1..k of the first `length` bytes of data, partSize bytes each as far as they go. */
  function PartsOf(data: seq<int>, length: nat, partSize: nat, k: nat): map<int, seq<int>>
    requires Fitting(length, k, partSize) <= |data|
  {
    if k == 0 then map[]
    else
      FittingGrows(length, k, partSize);
      PartsOf(data, length, partSize, k - 1)
        [k := data[Fitting(length, k - 1, partSize)..Fitting(length, k, partSize)]]
  }

  lemma {:induction false} PartsOfAssemble(data: seq<int>, length: nat, partSize: nat, k: nat)
    requires Fitting(length, k, partSize) <= |data|
    ensures Assembled(PartsOf(data, length, partSize, k), UploadPool.Upto(1, k))
         == data[..Fitting(length, k, partSize)]
  {
    if k > 0 {
      FittingGrows(length, k, partSize);
      PartsOfAssemble(data, length, partSize, k - 1);
      StoredNext(PartsOf(data, length, partSize, k - 1), k, data,
                 Fitting(length, k - 1, partSize), Fitting(length, k, partSize));
    }
  }

  /** Parts 1..k are stored, and no others; all but the last have partSize bytes, and that one
      has lastSize. */
  predicate PartSizesAre(stored: map<int, seq<int>>, k: int, partSize: int, lastSize: int) {
    && (forall p :: p in stored ==> 1 <= p <= k)
    && (forall p :: 1 <= p <= k ==> p in stored)
    && (forall p :: 1 <= p < k ==> |stored[p]| == partSize)
    && (k >= 1 ==> |stored[k]| == lastSize)
  }

  lemma {:induction false} PartsOfSizes(data: seq<int>, length: nat, partSize: nat, k: nat)
    requires Fitting(length, k, partSize) <= |data|
    requires k >= 1 ==> Times(k - 1, partSize) <= length
    ensures PartSizesAre(PartsOf(data, length, partSize, k), k, partSize,
                         if k == 0 then 0 else Fitting(length, k, partSize) - Times(k - 1, partSize))
  {
    if k > 0 {
      FittingGrows(length, k, partSize);
      PartsOfSizes(data, length, partSize, k - 1);
    }
  }

  /** A finished upload: parts 1..k are listed and stored, with these sizes, and put together
      they are the first `size` bytes of the stream. */
  predicate Delivered(u: Upload, data: seq<int>, size: nat, k: int, partSize: int, lastSize: int) {
    && u.parts == UploadPool.Upto(1, k)
    && PartSizesAre(u.stored, k, partSize, lastSize)
    && size <= |data| && Assembled(u.stored, u.parts) == data[..size]
  }

  lemma PartsAreDelivered(data: seq<int>, length: nat, partSize: nat, k: nat, u: Upload, size: nat, lastSize: nat)
    requires k >= 1 && size == Fitting(length, k, partSize) <= |data|
    requires Times(k - 1, partSize) + lastSize == size
    requires u.parts == UploadPool.Upto(1, k) && u.stored == PartsOf(data, length, partSize, k)
    ensures Delivered(u, data, size, k, partSize, lastSize)
  {
    PartsOfAssemble(data, length, partSize, k);
    PartsOfSizes(data, length, partSize, k);
  }

  /** How many parts a stream takes: as many as it fills, but at least one. */
  function PartCount(length: nat, partSize: nat): (n: nat)
    requires partSize >= 1
    ensures n >= 1
  {
    if length <= partSize then 1 else 1 + PartCount(length - partSize, partSize)
  }

  /** The size of the last of them: it is empty only for an empty stream. */
  function LastSize(length: nat, partSize: nat): (r: nat)
    requires partSize >= 1
    ensures r <= partSize && (r == 0 <==> length == 0)
  {
    if length <= partSize then length else LastSize(length - partSize, partSize)
  }

  lemma {:induction false} PartsAndLast(length: nat, partSize: nat)
    requires partSize >= 1
    ensures Times(PartCount(length, partSize) - 1, partSize) + LastSize(length, partSize) == length
  {
    if length > partSize {
      PartsAndLast(length - partSize, partSize);
    }
  }

  lemma {:induction false} PartCountReaches(length: nat, partSize: nat, k: nat)
    requires partSize >= 1 && k >= 1
    ensures PartCount(length, partSize) <= k <==> length <= Times(k, partSize)
    decreases length
  {
    TimesMonotone(1, k, partSize);
    if length > partSize && k > 1 {
      TimesAtFront(k, partSize);
      PartCountReaches(length - partSize, partSize, k - 1);
    }
  }

  lemma {:induction false} TimesAtFront(k: nat, p: nat)
    requires k >= 1
    ensures Times(k, p) == p + Times(k - 1, p)
  {
  }

  // ----- known length -----

  /** Some part that is to be uploaded is rejected. */
  predicate SomeRejected(rejects: int -> bool, n: nat) {
    exists p :: 1 <= p <= n && rejects(p)
  }

  /** Where part k begins and ends, for a declared size. */
  lemma PartFits(info: PartInfo, size: nat, k: nat)
    requires 1 <= k <= info.totalPartsCount && 0 < info.lastPartSize <= info.partSize
    requires (info.totalPartsCount - 1) * info.partSize + info.lastPartSize == size
    ensures Fitting(size, k - 1, info.partSize) == Times(k - 1, info.partSize) <= size
    ensures Fitting(size, k, info.partSize)
         == Times(k - 1, info.partSize) + if k == info.totalPartsCount then info.lastPartSize else info.partSize
    ensures k == info.totalPartsCount ==> Fitting(size, k, info.partSize) == size
  {
    TimesIsProduct(info.totalPartsCount - 1, info.partSize);
    TimesMonotone(k - 1, info.totalPartsCount - 1, info.partSize);
    if k < info.totalPartsCount {
      TimesMonotone(k, info.totalPartsCount - 1, info.partSize);
    }
  }

  /** Uploads the parts of a stream of declared size. */
  method UploadSized(data: seq<int>, info: PartInfo, size: nat, rejects: int -> bool)
    returns (err: Option<UploadError>, stored: map<int, seq<int>>, partsInfo: map<int, int>, totalUploadedSize: nat)
    requires info.totalPartsCount >= 1 && 0 < info.lastPartSize <= info.partSize
    requires (info.totalPartsCount - 1) * info.partSize + info.lastPartSize == size
    ensures err == None ==>
      && totalUploadedSize == size <= |data|
      && Fitting(size, info.totalPartsCount, info.partSize) == size
      && stored == PartsOf(data, size, info.partSize, info.totalPartsCount)
      && Recorded(partsInfo, rejects, info.totalPartsCount)
    ensures err != None ==>
      || (err.value.PartRejected? && 1 <= err.value.part <= info.totalPartsCount && rejects(err.value.part))
      || (err.value.ShortBody? && |data| < size)
  {
    err, stored, partsInfo, totalUploadedSize := None, map[], map[], 0;
    var partSize := info.partSize;
    var partNumber: nat := 1;
    while partNumber <= info.totalPartsCount
      invariant 1 <= partNumber <= info.totalPartsCount + 1 && err == None
      invariant partNumber <= info.totalPartsCount ==> partSize == info.partSize
      invariant totalUploadedSize == Fitting(size, partNumber - 1, info.partSize) <= |data|
      invariant stored == PartsOf(data, size, info.partSize, partNumber - 1)
      invariant Recorded(partsInfo, rejects, partNumber - 1)
    {
      if partNumber == info.totalPartsCount {
        partSize := info.lastPartSize;
      }
      PartFits(info, size, partNumber);
      if totalUploadedSize + partSize > |data| {
        err := Some(ShortBody(partNumber));
        return;
      }
      err, stored, partsInfo :=
        UploadPart(data, totalUploadedSize, totalUploadedSize + partSize, partNumber, stored, partsInfo, rejects);
      if err != None {
        return;
      }
      totalUploadedSize := totalUploadedSize + partSize;
      partNumber := partNumber + 1;
    }
    PartFits(info, size, info.totalPartsCount);
  }

  lemma SizedIsDelivered(data: seq<int>, info: PartInfo, size: nat, u: Upload)
    requires info.totalPartsCount >= 1 && 0 < info.lastPartSize <= info.partSize
    requires (info.totalPartsCount - 1) * info.partSize + info.lastPartSize == size <= |data|
    requires Fitting(size, info.totalPartsCount, info.partSize) == size
    requires u.parts == UploadPool.Upto(1, info.totalPartsCount)
    requires u.stored == PartsOf(data, size, info.partSize, info.totalPartsCount)
    ensures Delivered(u, data, size, info.totalPartsCount, info.partSize, info.lastPartSize)
  {
    PartFits(info, size, info.totalPartsCount);
    PartsAreDelivered(data, size, info.partSize, info.totalPartsCount, u, size, info.lastPartSize);
  }

  /** Uploads a stream of declared size part by part. It succeeds exactly when the stream is
      long enough and no part is rejected, and then the server has the first size bytes, in
      parts of the announced sizes. */
  method PutObjectMultipartStreamNoChecksum(data: seq<int>, info: PartInfo, size: nat, rejects: int -> bool)
    returns (r: Result<Upload, UploadError>)
    requires info.totalPartsCount >= 1 && 0 < info.lastPartSize <= info.partSize
    requires (info.totalPartsCount - 1) * info.partSize + info.lastPartSize == size
    ensures r.Ok? <==> |data| >= size && !SomeRejected(rejects, info.totalPartsCount)
    ensures r.Ok? ==> Delivered(r.value, data, size, info.totalPartsCount, info.partSize, info.lastPartSize)
    ensures r.Err? ==>
      || (r.error.PartRejected? && rejects(r.error.part))
      || (r.error.ShortBody? && |data| < size)
  {
    var err, stored, partsInfo, totalUploadedSize := UploadSized(data, info, size, rejects);
    if err != None {
      return Err(err.value);
    }
    if size > 0 && totalUploadedSize != size {
      return Err(UnexpectedEOF);
    }
    var parts := ListParts(partsInfo, info.totalPartsCount);
    var upload := Upload(parts.value, stored);
    SizedIsDelivered(data, info, size, upload);
    return Ok(upload);
  }

  // ----- unknown length -----

  /** The loop is behind part k, which was the first or had something to take. */
  predicate Reached(length: nat, partSize: nat, k: nat) {
    k > 1 ==> Times(k - 1, partSize) < length
  }

  /** Parts are uploaded as long as the stream takes them. */
  lemma CountIsReached(length: nat, n: nat, partSize: nat, k: nat)
    requires partSize >= 1 && 1 <= k <= n && Reached(length, partSize, k)
    ensures k <= PartCount(Fitting(length, n, partSize), partSize) <= n
    ensures k == n || length <= Times(k, partSize) ==>
      k == PartCount(Fitting(length, n, partSize), partSize) && Fitting(length, k, partSize) == Fitting(length, n, partSize)
  {
    TimesMonotone(k, n, partSize);
    PartCountReaches(Fitting(length, n, partSize), partSize, n);
    PartCountReaches(Fitting(length, n, partSize), partSize, k);
    if k > 1 {
      PartCountReaches(Fitting(length, n, partSize), partSize, k - 1);
    }
  }

  lemma StreamIsDelivered(data: seq<int>, n: nat, partSize: nat, u: Upload, k: nat)
    requires partSize >= 1 && 1 <= k <= n && Reached(|data|, partSize, k)
    requires k == n || |data| <= Times(k, partSize)
    requires u.parts == UploadPool.Upto(1, k) && u.stored == PartsOf(data, |data|, partSize, k)
    ensures var size := Fitting(|data|, n, partSize);
            Delivered(u, data, size, PartCount(size, partSize), partSize, LastSize(size, partSize))
    ensures PartCount(Fitting(|data|, n, partSize), partSize) == k
    ensures Fitting(|data|, k, partSize) == Fitting(|data|, n, partSize)
  {
    var size := Fitting(|data|, n, partSize);
    StreamEnds(|data|, n, partSize, k);
    PartsAreDelivered(data, |data|, partSize, k, u, size, LastSize(size, partSize));
  }

  lemma StreamEnds(length: nat, n: nat, partSize: nat, k: nat)
    requires partSize >= 1 && 1 <= k <= n && Reached(length, partSize, k)
    requires k == n || length <= Times(k, partSize)
    ensures var size := Fitting(length, n, partSize);
            && PartCount(size, partSize) == k && Fitting(length, k, partSize) == size
            && Times(k - 1, partSize) + LastSize(size, partSize) == size
  {
    CountIsReached(length, n, partSize, k);
    PartsAndLast(Fitting(length, n, partSize), partSize);
  }

  lemma FitsIff(data: seq<int>, n: nat, partSize: nat, assembled: seq<int>)
    requires assembled == data[..Fitting(|data|, n, partSize)]
    ensures assembled == data <==> |data| <= Times(n, partSize)
  {
    assert |data[..Fitting(|data|, n, partSize)]| == Fitting(|data|, n, partSize);
  }

  /** What the next part takes, and when there is none. */
  lemma StreamStep(length: nat, n: nat, partSize: nat, k: nat)
    requires partSize >= 1 && 1 <= k <= n && Reached(length, partSize, k - 1)
    ensures var left := length - Fitting(length, k - 1, partSize);
            && left >= 0
            && Fitting(length, k, partSize)
               == Fitting(length, k - 1, partSize) + (if left < partSize then left else partSize)
            && (left == 0 ==> length <= Times(k - 1, partSize) <= Times(k, partSize))
            && (left > 0 || k == 1 ==>
                  Reached(length, partSize, k) && k <= PartCount(Fitting(length, n, partSize), partSize))
  {
    if Reached(length, partSize, k) {
      CountIsReached(length, n, partSize, k);
    }
  }

  /** The loop is behind k parts of the stream. */
  predicate Uploaded(data: seq<int>, partSize: nat, rejects: int -> bool,
                     stored: map<int, seq<int>>, partsInfo: map<int, int>, k: nat, size: nat)
  {
    && Reached(|data|, partSize, k)
    && size == Fitting(|data|, k, partSize)
    && stored == PartsOf(data, |data|, partSize, k)
    && Recorded(partsInfo, rejects, k)
  }

  /** Reads and uploads one part; eof, if there was nothing more to read. */
  method UploadNext(data: seq<int>, ghost n: nat, partSize: nat, rejects: int -> bool,
                    stored: map<int, seq<int>>, partsInfo: map<int, int>, partNumber: nat, size: nat)
    returns (eof: bool, err: Option<UploadError>,
             stored': map<int, seq<int>>, partsInfo': map<int, int>, partNumber': nat, size': nat)
    requires partSize >= 1 && 1 <= partNumber <= n
    requires Uploaded(data, partSize, rejects, stored, partsInfo, partNumber - 1, size)
    ensures eof && err == None ==> partNumber' >= 2 && |data| <= Times(partNumber' - 1, partSize)
    ensures !eof && err == None ==> partNumber' == partNumber + 1
    ensures partNumber <= partNumber' <= partNumber + 1
    ensures err == None ==> Uploaded(data, partSize, rejects, stored', partsInfo', partNumber' - 1, size')
    ensures err != None ==>
      && err == Some(PartRejected(partNumber)) && rejects(partNumber)
      && partNumber' == partNumber <= PartCount(Fitting(|data|, n, partSize), partSize) && size' == size
  {
    StreamStep(|data|, n, partSize, partNumber);
    var left := |data| - size;
    var length := if left < partSize then left else partSize;
    eof, err, stored', partsInfo', partNumber', size' := length == 0, None, stored, partsInfo, partNumber, size;
    if eof && partNumber > 1 {
      return;
    }
    err, stored', partsInfo' := UploadPart(data, size, size + length, partNumber, stored, partsInfo, rejects);
    if err == None {
      partNumber', size' := partNumber + 1, size + length;
    }
  }

  /** Reads and uploads parts until the stream ends. */
  method UploadStream(data: seq<int>, n: nat, partSize: nat, rejects: int -> bool)
    returns (err: Option<UploadError>, stored: map<int, seq<int>>, partsInfo: map<int, int>, partNumber: nat,
             totalUploadedSize: nat)
    requires n >= 1 && partSize >= 1
    ensures err != None ==>
      && err == Some(PartRejected(partNumber)) && rejects(partNumber)
      && 1 <= partNumber <= PartCount(Fitting(|data|, n, partSize), partSize)
      && totalUploadedSize == Fitting(|data|, partNumber - 1, partSize)
    ensures err == None ==>
      && 2 <= partNumber <= n + 1
      && (partNumber == n + 1 || |data| <= Times(partNumber - 1, partSize))
      && Uploaded(data, partSize, rejects, stored, partsInfo, partNumber - 1, totalUploadedSize)
  {
    stored, partsInfo, partNumber, totalUploadedSize := map[], map[], 1, 0;
    var eof := false;
    err := None;
    while partNumber <= n && !eof
      invariant 1 <= partNumber <= n + 1 && err == None
      invariant eof ==> partNumber >= 2 && |data| <= Times(partNumber - 1, partSize)
      invariant Uploaded(data, partSize, rejects, stored, partsInfo, partNumber - 1, totalUploadedSize)
      decreases n + 1 - partNumber, !eof
    {
      eof, err, stored, partsInfo, partNumber, totalUploadedSize :=
        UploadNext(data, n, partSize, rejects, stored, partsInfo, partNumber, totalUploadedSize);
      if err != None {
        return;
      }
    }
  }

  /** Uploads a stream until it ends, at most n parts of partSize bytes. It succeeds exactly if
      none of the parts that the stream takes is rejected; the server then has what fits into
      the parts, which is the whole stream exactly when that is not longer than n times
      partSize. */
  method PutObjectMultipartStreamNoLength(data: seq<int>, n: nat, partSize: nat, rejects: int -> bool)
    returns (r: Result<Upload, UploadError>, totalUploadedSize: nat)
    requires n >= 1 && partSize >= 1
    ensures r.Ok? <==> !SomeRejected(rejects, PartCount(Fitting(|data|, n, partSize), partSize))
    ensures r.Err? ==>
      && r.error.PartRejected? && r.error.part >= 1 && rejects(r.error.part)
      && totalUploadedSize == Fitting(|data|, r.error.part - 1, partSize)
    ensures r.Ok? ==>
      var size := Fitting(|data|, n, partSize);
      && totalUploadedSize == size
      && Delivered(r.value, data, size, PartCount(size, partSize), partSize, LastSize(size, partSize))
    ensures r.Ok? ==> (Assembled(r.value.stored, r.value.parts) == data <==> |data| <= Times(n, partSize))
  {
    var err, stored, partsInfo, partNumber;
    err, stored, partsInfo, partNumber, totalUploadedSize := UploadStream(data, n, partSize, rejects);
    if err != None {
      return Err(err.value), totalUploadedSize;
    }
    var parts := ListParts(partsInfo, partNumber - 1);
    var upload := Upload(parts.value, stored);
    StreamIsDelivered(data, n, partSize, upload, partNumber - 1);
    FitsIff(data, n, partSize, Assembled(upload.stored, upload.parts));
    r := Ok(upload);
  }

  // ----- the part size and the parallel upload -----

  /** The parallel upload of an object with the parts that optimalPartInfo chose. */
  function PoolOf(info: PartInfo, size: nat, workers: nat): UploadPool.Config
    requires info.totalPartsCount >= 1 && 0 < info.lastPartSize <= info.partSize
  {
    UploadPool.Config(info.totalPartsCount, info.partSize, info.lastPartSize, size, workers, MAX_PARTS_COUNT)
  }

  /** The parallel upload of a reader with ReadAt can hang exactly for the sizes that get one
      part too many; for all others it cannot, in any interleaving. */
  lemma ParallelUploadHangsIff(round: real -> real, size: nat, configuredPartSize: int, workers: nat)
    requires IsRounding(round) && workers >= 1
    requires 0 <= configuredPartSize < TWO_TO_64 && Divisible(size, configuredPartSize)
    requires OptimalPartInfo(round, size, configuredPartSize).Ok?
    ensures var info := OptimalPartInfo(round, size, configuredPartSize).value;
            && info.totalPartsCount >= 1 && 0 < info.lastPartSize <= info.partSize
            && var c := PoolOf(info, size, workers);
            && UploadPool.ValidConfig(c)
            && ((exists es :: UploadPool.Run(c, es).Some?
                              && UploadPool.Run(c, es).value.outcome == UploadPool.Running
                              && UploadPool.Stuck(c, UploadPool.Run(c, es).value))
                <==> OnePartTooMany(size, configuredPartSize))
  {
    PartsTile(round, size, configuredPartSize);
    PartsCountBound(round, size, configuredPartSize);
    var info := OptimalPartInfo(round, size, configuredPartSize).value;
    UploadPool.HangsIffTooManyParts(PoolOf(info, size, workers));
  }
}
