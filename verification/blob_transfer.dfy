/**
  Moving a blob from the Source to a Follower in byte ranges: the range branch of
  `route` (src/enrollment/source-server.ts), `retrieveBlob` and the download
  order of `fetchRevision` (src/enrollment/follower-client.ts).
 */
module BlobTransfer {
  import opened Options
  import opened Binary
  import opened Sequences
  import opened Sorting
  import opened BlobStore

  datatype Range = Range(start: nat, end: nat)

  /** A response body with its status, length header and content range. */
  datatype Response = Response(status: nat, body: Bytes, contentLength: Option<nat>,
      contentRange: Option<(nat, nat, nat)>)

  // ----- the Source -----

  function Refusal(status: nat): Response {
    Response(status, [], None, None)
  }

  /** One range, of safe integers, no longer than the server allows. */
  predicate IsBoundedRange(limit: nat, range: Option<Range>) {
    && range.Some? && range.value.start <= range.value.end <= MAX_SAFE_INTEGER
    && range.value.end - range.value.start + 1 <= limit
  }

  /** What a follower receives; `authorized` is the blob its credential reaches. */
  function Served(limit: nat, range: Option<Range>, authorized: Option<Blob>): Response
    requires authorized.Some? ==> IsTableRow(authorized.value)
  {
    if !IsBoundedRange(limit, range) then Refusal(400)
    else if authorized.None? then Refusal(404)
    else
      var start := range.value.start;
      var read := ReadRange(authorized.value, start, range.value.end - start + 1);
      if read.Err? then Refusal(500)
      else if read.value.totalBytes == 0 && start == 0 then Response(200, [], Some(0), None)
      else if start >= read.value.totalBytes || read.value.byteLength == 0 then Refusal(400)
      else
        Response(206, Flatten(read.value.pieces), Some(read.value.byteLength),
                 Some((start, start + read.value.byteLength - 1, read.value.totalBytes)))
  }

  class SourceServer {
    const maximumBlobBytes: nat
    var blobRequests: nat

    constructor (maximumBlobBytes: nat)
      ensures this.maximumBlobBytes == maximumBlobBytes && blobRequests == 0
    {
      this.maximumBlobBytes := maximumBlobBytes;
      blobRequests := 0;
    }

    /** The branch for one blob request. A request without one bounded range is not counted. */
    method RouteBlob(range: Option<Range>, authorized: Option<Blob>) returns (response: Response)
      requires authorized.Some? ==> IsTableRow(authorized.value)
      modifies this
      ensures response == Served(maximumBlobBytes, range, authorized)
      ensures blobRequests == old(blobRequests) + if IsBoundedRange(maximumBlobBytes, range) then 1 else 0
    {
      if !IsBoundedRange(maximumBlobBytes, range) {
        return Refusal(400);
      }
      blobRequests := blobRequests + 1;
      if authorized.None? {
        return Refusal(404);
      }
      var start := range.value.start;
      var read := ReadResourceBlobRange(authorized.value, start, range.value.end - start + 1);
      if read.Err? {
        return Refusal(500);
      }
      var blob := read.value;
      if blob.totalBytes == 0 && start == 0 {
        return Response(200, [], Some(0), None);
      }
      if start >= blob.totalBytes || blob.byteLength == 0 {
        return Refusal(400);
      }
      var body := WriteChunks(blob.pieces);
      return Response(206, body, Some(blob.byteLength), Some((start, start + blob.byteLength - 1, blob.totalBytes)));
    }
  }

  method WriteChunks(pieces: seq<Bytes>) returns (body: Bytes)
    ensures body == Flatten(pieces)
  {
    body := [];
    var i := 0;
    while i < |pieces|
      invariant 0 <= i <= |pieces| && Flatten(pieces[..i]) == body
    {
      assert pieces[..i + 1] == pieces[..i] + [pieces[i]];
      FlattenAppend(pieces[..i], pieces[i]);
      body := body + pieces[i];
      i := i + 1;
    }
    assert pieces[..i] == pieces;
  }

  /** A Source that holds the file answers a bounded range inside it with exactly those bytes. */
  lemma ServedIsExact(limit: nat, range: Range, blob: Blob, file: Bytes)
    requires IsTableRow(blob) && IsStored(blob, file) && IsBoundedRange(limit, Some(range))
    requires range.end < |file| <= MAX_SAFE_INTEGER
    ensures Served(limit, Some(range), Some(blob))
         == Response(206, file[range.start..range.end + 1], Some(range.end - range.start + 1),
             Some((range.start, range.end, |file|)))
  {
    StoredRangeIsExact(blob, file, range.start, range.end - range.start + 1);
  }

  // ----- the Follower -----

  datatype ClientError = SizeLimit | Malformed | Refused | Integrity | Transport | CacheWrite

  /** What the network makes of each request: any response, or none. */
  type Network = (nat, Range) -> Result<Response, ClientError>

  /** The transport layer stops a body longer than the client's limit. */
  function Received(network: Network, limit: nat, attempt: nat, range: Range): Result<Response, ClientError> {
    var response := network(attempt, range);
    if response.Ok? && |response.value.body| > limit then Err(SizeLimit) else response
  }

  function NextRange(total: nat, limit: nat, offset: nat): Range
    requires limit > 0 && (total == 0 || offset < total)
  {
    if total == 0 then Range(offset, 0) else Range(offset, Min(total - 1, offset + limit - 1))
  }

  /** The answer to an empty blob. */
  predicate IsEmptyAnswer(response: Response) {
    response.status == 200 && response.body == [] && response.contentLength == Some(0)
  }

  /** The answer carries exactly the range asked for. */
  predicate IsExactAnswer(response: Response, range: Range, total: nat) {
    && response.contentRange == Some((range.start, range.end, total))
    && |response.body| == range.end - range.start + 1
    && response.contentLength == Some(|response.body|)
  }

  /** The bytes of an answer that carries its range. */
  function CheckAnswer(response: Response, range: Range, total: nat): Result<Bytes, ClientError> {
    if response.status != 206 then Err(Refused)
    else if !IsExactAnswer(response, range, total) then Err(Malformed)
    else Ok(response.body)
  }

  /** One turn of the loop for a blob that is not empty: the bytes it adds. */
  function Turn(network: Network, total: nat, limit: nat, offset: nat, attempt: nat): (body: Result<Bytes, ClientError>)
    requires limit > 0 && offset < total
    ensures body.Ok? ==> |body.value| == NextRange(total, limit, offset).end - offset + 1
  {
    var range := NextRange(total, limit, offset);
    var response := Received(network, limit, attempt, range);
    if response.Err? then Err(response.error) else CheckAnswer(response.value, range, total)
  }

  /** The bytes of the ranges from `offset` on, and the error that ended them. */
  function Rest(
      network: Network, total: nat, limit: nat, offset: nat, attempt: nat): (bytes: Result<Bytes, ClientError>)
    requires limit > 0 && offset <= total
    ensures bytes.Ok? ==> |bytes.value| == total - offset
    decreases total - offset
  {
    if offset == total then Ok([])
    else
      var body := Turn(network, total, limit, offset, attempt);
      if body.Err? then Err(body.error)
      else
        var rest := Rest(network, total, limit, offset + |body.value|, attempt + 1);
        if rest.Err? then Err(rest.error) else Ok(body.value + rest.value)
  }

  /** The bytes before their digest is checked. */
  function Fetched(network: Network, total: nat, limit: nat): (bytes: Result<Bytes, ClientError>)
    requires limit > 0
    ensures bytes.Ok? ==> |bytes.value| == total
  {
    if total > 0 then Rest(network, total, limit, 0, 0)
    else
      var response := Received(network, limit, 0, Range(0, 0));
      if response.Err? then Err(response.error) else if !IsEmptyAnswer(response.value) then Err(Malformed) else Ok([])
  }

  datatype Request = Request(revision: Option<string>, id: string, bytes: Option<nat>, maximumBlobBytes: int)

  /** Whatever the network does, bytes are only returned with the signed length and digest. */
  function Retrieved(network: Network, digest: Bytes -> string, r: Request): (result: Result<Bytes, ClientError>)
    ensures result.Ok? ==> r.bytes == Some(|result.value|) && digest(result.value) == r.id
  {
    if !(0 < r.maximumBlobBytes <= MAX_SAFE_INTEGER) then Err(SizeLimit)
    else if r.revision.None? || r.bytes.None? then Err(Malformed)
    else
      var bytes := Fetched(network, r.bytes.value, r.maximumBlobBytes);
      if bytes.Ok? && digest(bytes.value) != r.id then Err(Integrity) else bytes
  }

  /** The ranges a transfer asks for from `offset` on; there is always a first one. */
  function Ranges(total: nat, limit: nat, offset: nat): (ranges: seq<Range>)
    requires limit > 0
    decreases total + 1 - offset
  {
    if offset == 0 || offset < total then
      var range := NextRange(total, limit, offset);
      [range] + Ranges(total, limit, range.end + 1)
    else []
  }

  /** `progress` reports the last byte of each answered request. */
  ghost predicate AreEnds(progress: seq<nat>, requests: seq<Range>) {
    |progress| <= |requests| && forall i :: 0 <= i < |progress| ==> progress[i] == requests[i].end + 1
  }

  method RetrieveBlob(network: Network, digest: Bytes -> string, r: Request)
    returns (result: Result<Bytes, ClientError>, requests: seq<Range>, progress: seq<nat>)
    ensures result == Retrieved(network, digest, r)
    ensures 0 < r.maximumBlobBytes <= MAX_SAFE_INTEGER && r.revision.Some? && r.bytes.Some? ==>
              requests <= Ranges(r.bytes.value, r.maximumBlobBytes, 0) && AreEnds(progress, requests)
              && (result.Ok? ==> requests == Ranges(r.bytes.value, r.maximumBlobBytes, 0))
              && (if r.bytes.value == 0 then progress == [] else result.Ok? ==> |progress| == |requests|)
  {
    if !(0 < r.maximumBlobBytes <= MAX_SAFE_INTEGER) {
      return Err(SizeLimit), [], [];
    }
    if r.revision.None? || r.bytes.None? {
      return Err(Malformed), [], [];
    }
    result, requests, progress := RetrieveRanges(network, r.bytes.value, r.maximumBlobBytes);
    if result.Ok? && digest(result.value) != r.id {
      result := Err(Integrity);
    }
  }

  /** The program's do-while loop. It also returns the requests made and the progress reported. */
  method RetrieveRanges(network: Network, total: nat, limit: nat)
    returns (result: Result<Bytes, ClientError>, requests: seq<Range>, progress: seq<nat>)
    requires limit > 0
    ensures IsOutcome(network, total, limit, result, requests, progress)
  {
    requests, progress := [], [];
    var offset, chunks: Bytes := 0, [];
    NothingReceived(network, total, limit);
    while true
      invariant offset < total || offset == total == 0
      invariant HaveAsked(network, total, limit, offset, chunks, requests, progress)
      decreases total - offset
    {
      var range, attempt := NextRange(total, limit, offset), |requests|;
      var response := Received(network, limit, attempt, range);
      Asked(network, total, limit, offset, chunks, requests, progress);
      requests := requests + [range];
      if response.Err? {
        return Err(response.error), requests, progress;
      }
      if total == 0 {
        return if IsEmptyAnswer(response.value) then Ok([]) else Err(Malformed), requests, progress;
      }
      var body := CheckAnswer(response.value, range, total);
      if body.Err? {
        return Err(body.error), requests, progress;
      }
      chunks := chunks + body.value;
      offset := range.end + 1;
      progress := progress + [offset];
      if offset >= total {
        Completed(network, total, limit, chunks, requests, progress);
        return Ok(chunks), requests, progress;
      }
    }
  }

  /** What a transfer may end with: only requests of the plan, all of them when it succeeds. */
  ghost predicate IsOutcome(
      network: Network, total: nat, limit: nat, result: Result<Bytes, ClientError>, requests: seq<Range>,
      progress: seq<nat>) {
    && limit > 0 && result == Fetched(network, total, limit)
    && requests <= Ranges(total, limit, 0) && AreEnds(progress, requests)
    && (result.Ok? ==> requests == Ranges(total, limit, 0))
    && (if total == 0 then progress == [] else result.Ok? ==> |progress| == |requests|)
  }

  /** The ranges before `offset` are asked for and received. */
  ghost predicate HaveAsked(
      network: Network, total: nat, limit: nat, offset: nat, chunks: Bytes, requests: seq<Range>, progress: seq<nat>) {
    && limit > 0 && offset <= total && |progress| == |requests| && AreEnds(progress, requests)
    && (total == 0 ==> requests == [])
    && Ranges(total, limit, 0) == requests + Ranges(total, limit, offset)
    && (total > 0 ==> Follows(Fetched(network, total, limit), chunks, Rest(network, total, limit, offset, |requests|)))
  }

  lemma NothingReceived(network: Network, total: nat, limit: nat)
    requires limit > 0
    ensures HaveAsked(network, total, limit, 0, [], [], [])
  {
    if total > 0 {
      FollowsNothing(Rest(network, total, limit, 0, 0));
    }
    assert Ranges(total, limit, 0) == [] + Ranges(total, limit, 0);
  }

  /** One more request: a failure ends the transfer, a body is received. */
  lemma Asked(
      network: Network, total: nat, limit: nat, offset: nat, chunks: Bytes, requests: seq<Range>, progress: seq<nat>)
    requires (offset < total || offset == total == 0)
    requires HaveAsked(network, total, limit, offset, chunks, requests, progress)
    ensures var range := NextRange(total, limit, offset);
            var fetched := Fetched(network, total, limit);
            if total == 0 then IsOutcome(network, total, limit, fetched, requests + [range], progress)
            else
              var body := Turn(network, total, limit, offset, |requests|);
              if body.Err? then IsOutcome(network, total, limit, Err(body.error), requests + [range], progress)
              else HaveAsked(network, total, limit, range.end + 1, chunks + body.value, requests + [range],
                  progress + [range.end + 1])
  {
    var range := NextRange(total, limit, offset);
    OneMoreRange(total, limit, offset, requests);
    if total == 0 {
      assert requests + [range] == Ranges(total, limit, 0);
    } else {
      OneMoreTurn(Fetched(network, total, limit), network, total, limit, offset, |requests|, chunks);
      if Turn(network, total, limit, offset, |requests|).Ok? {
        OneMoreEnd(progress, requests, range);
      }
    }
  }

  lemma OneMoreEnd(progress: seq<nat>, requests: seq<Range>, range: Range)
    requires |progress| == |requests| && AreEnds(progress, requests)
    ensures AreEnds(progress + [range.end + 1], requests + [range])
  {
  }

  lemma Completed(network: Network, total: nat, limit: nat, chunks: Bytes, requests: seq<Range>, progress: seq<nat>)
    requires total > 0 && HaveAsked(network, total, limit, total, chunks, requests, progress)
    ensures IsOutcome(network, total, limit, Ok(chunks), requests, progress)
  {
    assert chunks + [] == chunks;
    assert requests + [] == requests;
  }

  lemma OneMoreRange(total: nat, limit: nat, offset: nat, requests: seq<Range>)
    requires limit > 0 && (offset < total || offset == 0)
    ensures var range := NextRange(total, limit, offset);
            requests + Ranges(total, limit, offset) == requests + [range] + Ranges(total, limit, range.end + 1)
    ensures requests + [NextRange(total, limit, offset)] <= requests + Ranges(total, limit, offset)
  {
    var range := NextRange(total, limit, offset);
    var rest := Ranges(total, limit, range.end + 1);
    assert Ranges(total, limit, offset) == [range] + rest;
    InsertBetween(requests, range, rest);
  }

  lemma InsertBetween(a: seq<Range>, x: Range, b: seq<Range>)
    ensures a + ([x] + b) == a + [x] + b && a + [x] <= a + ([x] + b)
  {
  }

  /** The whole result is `chunks` followed by the rest, or the error that ends the rest. */
  ghost predicate Follows(whole: Result<Bytes, ClientError>, chunks: Bytes, rest: Result<Bytes, ClientError>) {
    whole == if rest.Ok? then Ok(chunks + rest.value) else rest
  }

  lemma FollowsNothing(rest: Result<Bytes, ClientError>)
    ensures Follows(rest, [], rest)
  {
    if rest.Ok? {
      assert [] + rest.value == rest.value;
    }
  }

  lemma OneMoreTurn(
      whole: Result<Bytes, ClientError>, network: Network, total: nat, limit: nat, offset: nat, attempt: nat,
      chunks: Bytes)
    requires limit > 0 && offset < total && Follows(whole, chunks, Rest(network, total, limit, offset, attempt))
    ensures var body := Turn(network, total, limit, offset, attempt);
            if body.Err? then whole == Err(body.error)
            else Follows(whole, chunks + body.value, Rest(network, total, limit, offset + |body.value|, attempt + 1))
  {
    var body := Turn(network, total, limit, offset, attempt);
    if body.Ok? {
      var rest := Rest(network, total, limit, offset + |body.value|, attempt + 1);
      if rest.Ok? {
        assert chunks + (body.value + rest.value) == chunks + body.value + rest.value;
      }
    }
  }

  // ----- the ranges partition the blob -----

  function Sliced(file: Bytes, ranges: seq<Range>): Bytes
    requires forall r :: r in ranges ==> r.start <= r.end + 1 <= |file|
  {
    if ranges == [] then [] else file[ranges[0].start..ranges[0].end + 1] + Sliced(file, ranges[1..])
  }

  /** The ranges of a blob that is not empty follow one another from the first byte
      to the last; each but the last is as long as the limit. */
  ghost predicate ArePartition(ranges: seq<Range>, total: nat, limit: nat, offset: nat) {
    && ranges != [] && ranges[0].start == offset && ranges[|ranges| - 1].end == total - 1
    && (forall i :: 0 <= i < |ranges| ==> ranges[i].start <= ranges[i].end < ranges[i].start + limit)
    && (forall i :: 0 <= i < |ranges| - 1 ==>
        ranges[i].end == ranges[i].start + limit - 1 && ranges[i + 1].start == ranges[i].end + 1)
  }

  lemma {:induction false} RangesPartition(total: nat, limit: nat, offset: nat)
    requires limit > 0 && offset < total
    ensures ArePartition(Ranges(total, limit, offset), total, limit, offset)
    decreases total - offset
  {
    var range := NextRange(total, limit, offset);
    if range.end + 1 < total {
      RangesPartition(total, limit, range.end + 1);
      var rest := Ranges(total, limit, range.end + 1);
      assert Ranges(total, limit, offset) == [range] + rest;
    } else {
      assert Ranges(total, limit, offset) == [range];
    }
  }

  lemma SlicedFirst(file: Bytes, range: Range, rest: seq<Range>)
    requires range.start <= range.end + 1 <= |file| && forall r :: r in rest ==> r.start <= r.end + 1 <= |file|
    ensures forall r :: r in [range] + rest ==> r.start <= r.end + 1 <= |file|
    ensures Sliced(file, [range] + rest) == file[range.start..range.end + 1] + Sliced(file, rest)
  {
    assert ([range] + rest)[1..] == rest;
  }

  lemma {:induction false} PartitionRebuilds(file: Bytes, limit: nat, offset: nat)
    requires limit > 0 && offset < |file|
    ensures forall r :: r in Ranges(|file|, limit, offset) ==> r.start <= r.end + 1 <= |file|
    ensures Sliced(file, Ranges(|file|, limit, offset)) == file[offset..]
    decreases |file| - offset
  {
    var range := NextRange(|file|, limit, offset);
    if range.end + 1 < |file| {
      PartitionRebuilds(file, limit, range.end + 1);
    }
    SlicedFirst(file, range, Ranges(|file|, limit, range.end + 1));
    assert file[offset..range.end + 1] + file[range.end + 1..] == file[offset..];
  }

  lemma {:induction false} RangesFill(total: nat, limit: nat, offset: nat)
    requires limit > 0 && offset < total
    ensures IsCount(total - offset, limit, |Ranges(total, limit, offset)|)
    decreases total - offset
  {
    var next := NextRange(total, limit, offset).end + 1;
    if next < total {
      RangesFill(total, limit, next);
    }
  }

  /** The number of ranges is the length divided by the limit, rounded up; an empty blob takes one. */
  lemma RangeCount(total: nat, limit: nat)
    requires limit > 0
    ensures |Ranges(total, limit, 0)| == if total == 0 then 1 else ChunkCount(total, limit)
  {
    if total > 0 {
      RangesFill(total, limit, 0);
      CountIsCeiling(total, limit, |Ranges(total, limit, 0)|);
    }
  }

  // ----- a Source that holds the file -----

  function Honest(limit: nat, blob: Blob): Network
    requires IsTableRow(blob)
  {
    (attempt, range) => Ok(Served(limit, Some(range), Some(blob)))
  }

  lemma HonestTurn(blob: Blob, file: Bytes, serverLimit: nat, limit: nat, offset: nat, attempt: nat)
    requires IsTableRow(blob) && IsStored(blob, file) && |file| <= MAX_SAFE_INTEGER && 0 < limit && offset < |file|
    requires Min(|file|, limit) <= serverLimit
    ensures Turn(Honest(serverLimit, blob), |file|, limit, offset, attempt)
         == Ok(file[offset..NextRange(|file|, limit, offset).end + 1])
  {
    ServedIsExact(serverLimit, NextRange(|file|, limit, offset), blob, file);
  }

  /** The server's limits allow the client's ranges. */
  ghost predicate CanServe(blob: Blob, file: Bytes, serverLimit: nat, limit: nat) {
    IsTableRow(blob) && IsStored(blob, file) && |file| <= MAX_SAFE_INTEGER && 0 < limit
        && Min(|file|, limit) <= serverLimit
  }

  /** Every turn brings the bytes of its range. */
  ghost predicate ServesFile(network: Network, file: Bytes, limit: nat) {
    limit > 0 && forall offset: nat, attempt: nat :: offset < |file| ==>
      Turn(network, |file|, limit, offset, attempt) == Ok(file[offset..NextRange(|file|, limit, offset).end + 1])
  }

  lemma HonestServesFile(blob: Blob, file: Bytes, serverLimit: nat, limit: nat)
    requires CanServe(blob, file, serverLimit, limit)
    ensures ServesFile(Honest(serverLimit, blob), file, limit)
  {
    forall offset: nat, attempt: nat | offset < |file|
      ensures Turn(Honest(serverLimit, blob), |file|, limit, offset, attempt)
           == Ok(file[offset..NextRange(|file|, limit, offset).end + 1])
    {
      HonestTurn(blob, file, serverLimit, limit, offset, attempt);
    }
  }

  lemma {:induction false} TurnsMakeFile(network: Network, file: Bytes, limit: nat, offset: nat, attempt: nat)
    requires ServesFile(network, file, limit) && offset <= |file|
    ensures Rest(network, |file|, limit, offset, attempt) == Ok(file[offset..])
    decreases |file| - offset
  {
    if offset < |file| {
      var next := NextRange(|file|, limit, offset).end + 1;
      TurnsMakeFile(network, file, limit, next, attempt + 1);
      assert Turn(network, |file|, limit, offset, attempt) == Ok(file[offset..next]);
      RestStep(network, |file|, limit, offset, attempt, file[offset..next], file[next..]);
      CutAt(file, offset, next);
    } else {
      assert file[offset..] == [];
    }
  }

  lemma CutAt(file: Bytes, offset: nat, next: nat)
    requires offset <= next <= |file|
    ensures file[offset..next] + file[next..] == file[offset..]
  {
  }

  lemma RestStep(network: Network, total: nat, limit: nat, offset: nat, attempt: nat, body: Bytes, rest: Bytes)
    requires limit > 0 && offset < total && Turn(network, total, limit, offset, attempt) == Ok(body)
    requires Rest(network, total, limit, offset + |body|, attempt + 1) == Ok(rest)
    ensures Rest(network, total, limit, offset, attempt) == Ok(body + rest)
  {
  }

  lemma HonestEmptyAnswer(blob: Blob, file: Bytes, serverLimit: nat)
    requires IsTableRow(blob) && IsStored(blob, file) && file == []
    ensures IsEmptyAnswer(Served(serverLimit, Some(Range(0, 0)), Some(blob))) <==> 1 <= serverLimit
  {
    if 1 <= serverLimit {
      StoredRangeIsExact(blob, file, 0, 1);
    }
  }

  /** The longest range a transfer asks for. */
  function LongestRange(total: nat, limit: nat): nat
  {
    if total == 0 then 1 else Min(total, limit)
  }

  /** Fetching from a Source that holds the file gives the file exactly when the
      longest range is one the server allows, in particular whenever the client's
      limit is no larger than the server's. */
  lemma TransferIsExact(blob: Blob, file: Bytes, serverLimit: nat, digest: Bytes -> string, r: Request)
    requires IsTableRow(blob) && IsStored(blob, file) && |file| <= MAX_SAFE_INTEGER
    requires r.revision.Some? && r.bytes == Some(|file|) && r.id == digest(file)
    requires 0 < r.maximumBlobBytes <= MAX_SAFE_INTEGER
    ensures LongestRange(|file|, r.maximumBlobBytes) <= serverLimit ==>
              Retrieved(Honest(serverLimit, blob), digest, r) == Ok(file)
    ensures LongestRange(|file|, r.maximumBlobBytes) > serverLimit ==>
              Retrieved(Honest(serverLimit, blob), digest, r).Err?
  {
    if file == [] {
      HonestEmptyAnswer(blob, file, serverLimit);
    } else if LongestRange(|file|, r.maximumBlobBytes) <= serverLimit {
      HonestServesFile(blob, file, serverLimit, r.maximumBlobBytes);
      TurnsMakeFile(Honest(serverLimit, blob), file, r.maximumBlobBytes, 0, 0);
    }
  }

  // ----- the download order -----

  datatype Event = Event(blob: string, blobIndex: nat, blobCount: nat, blobReceived: nat, blobBytes: nat,
      received: nat, total: nat)

  function TotalBytes(sizes: string -> nat, ids: seq<string>): nat {
    if ids == [] then 0 else TotalBytes(sizes, ids[..|ids| - 1]) + sizes(ids[|ids| - 1])
  }

  predicate NotLarger(sizes: string -> nat, a: string, b: string) {
    sizes(a) <= sizes(b)
  }

  function Uncached(ids: seq<string>, cached: set<string>): seq<string> {
    if ids == [] then [] else (if ids[0] in cached then [] else [ids[0]]) + Uncached(ids[1..], cached)
  }

  /** The blobs to fetch, smallest first. */
  function DownloadOrder(sizes: string -> nat, ids: seq<string>, cached: set<string>): seq<string> {
    SortBy(Uncached(ids, cached), (a, b) => NotLarger(sizes, a, b))
  }

  /** An event for each range of a blob, or one for an empty blob. */
  function RangeEvents(e: Event, ranges: seq<Range>): (events: seq<Event>)
    ensures |events| == |ranges|
    ensures forall i :: 0 <= i < |ranges| ==>
              events[i] == e.(blobReceived := ranges[i].end + 1, received := e.received + ranges[i].end + 1)
  {
    if ranges == [] then []
    else
      [e.(blobReceived := ranges[0].end + 1, received := e.received + ranges[0].end + 1)] + RangeEvents(e, ranges[1..])
  }

  function BlobEvents(e: Event, limit: nat): seq<Event>
    requires limit > 0
  {
    if e.blobBytes == 0 then [e] else RangeEvents(e, Ranges(e.blobBytes, limit, 0))
  }

  /** The event a blob starts from: nothing of it received. */
  function Before(sizes: string -> nat, order: seq<string>, index: nat): Event
    requires index < |order|
  {
    var id, received := order[index], TotalBytes(sizes, order[..index]);
    Event(id, index + 1, |order|, 0, sizes(id), received, TotalBytes(sizes, order))
  }

  /** The events of the first `n` blobs. */
  function Events(sizes: string -> nat, order: seq<string>, n: nat, limit: nat): seq<Event>
    requires n <= |order| && limit > 0
  {
    if n == 0 then [] else Events(sizes, order, n - 1, limit) + BlobEvents(Before(sizes, order, n - 1), limit)
  }

  /** Only the last event reports everything received. */
  ghost predicate OnlyLastIsComplete(events: seq<Event>, total: nat) {
    && events != [] && events[|events| - 1].received == total
    && forall i :: 0 <= i < |events| - 1 ==> events[i].received < total
  }

  /** Each event lies between what was received before and all that was asked for;
      the last of a blob reports the blob as complete. */
  lemma BlobEventsAre(e: Event, limit: nat)
    requires limit > 0
    ensures OnlyLastIsComplete(BlobEvents(e, limit), e.received + e.blobBytes)
  {
    if e.blobBytes > 0 {
      RangesPartition(e.blobBytes, limit, 0);
      RangeEventsAre(e, Ranges(e.blobBytes, limit, 0), limit);
    }
  }

  lemma EarlierRangesEndBefore(ranges: seq<Range>, total: nat, limit: nat)
    requires limit > 0 && ArePartition(ranges, total, limit, 0)
    ensures ranges != [] && ranges[|ranges| - 1].end + 1 == total
    ensures forall i :: 0 <= i < |ranges| - 1 ==> ranges[i].end + 1 < total
  {
    forall i | 0 <= i < |ranges| - 1
      ensures ranges[i].end + 1 < total
    {
      LaterRangesEndLater(ranges, total, limit, 0, i);
    }
  }

  lemma RangeEventsAre(e: Event, ranges: seq<Range>, limit: nat)
    requires limit > 0 && e.blobBytes > 0 && ArePartition(ranges, e.blobBytes, limit, 0)
    ensures OnlyLastIsComplete(RangeEvents(e, ranges), e.received + e.blobBytes)
  {
    EarlierRangesEndBefore(ranges, e.blobBytes, limit);
    var events := RangeEvents(e, ranges);
    assert forall i :: 0 <= i < |events| ==> events[i].received == e.received + ranges[i].end + 1;
  }

  lemma {:induction false} LaterRangesEndLater(ranges: seq<Range>, total: nat, limit: nat, offset: nat, i: nat)
    requires limit > 0 && ArePartition(ranges, total, limit, offset) && i < |ranges| - 1
    ensures ranges[i].end < ranges[|ranges| - 1].end
    decreases |ranges| - i
  {
    if i + 1 < |ranges| - 1 {
      LaterRangesEndLater(ranges, total, limit, offset, i + 1);
    }
  }

  lemma TotalOfPrefix(sizes: string -> nat, order: seq<string>, n: nat)
    requires n < |order|
    ensures TotalBytes(sizes, order[..n + 1]) == TotalBytes(sizes, order[..n]) + sizes(order[n])
  {
    assert order[..n + 1][..n] == order[..n];
  }

  /** No event reports more than `bound`, and the last reports exactly that. */
  ghost predicate ReachBound(events: seq<Event>, bound: nat) {
    && events != [] && events[|events| - 1].received == bound
    && forall i :: 0 <= i < |events| ==> events[i].received <= bound
  }

  lemma CompleteReaches(events: seq<Event>, total: nat)
    requires OnlyLastIsComplete(events, total)
    ensures ReachBound(events, total)
  {
  }

  lemma ReachNextBound(earlier: seq<Event>, last: seq<Event>, before: nat, bound: nat)
    requires ReachBound(last, bound) && before <= bound && (earlier == [] || ReachBound(earlier, before))
    ensures ReachBound(earlier + last, bound)
  {
  }

  lemma {:induction false} EventsAre(sizes: string -> nat, order: seq<string>, n: nat, limit: nat)
    requires n <= |order| && limit > 0
    ensures n > 0 ==> ReachBound(Events(sizes, order, n, limit), TotalBytes(sizes, order[..n]))
  {
    if n > 0 {
      var earlier, last := Events(sizes, order, n - 1, limit), BlobEvents(Before(sizes, order, n - 1), limit);
      EventsAre(sizes, order, n - 1, limit);
      TotalOfPrefix(sizes, order, n - 1);
      BlobEventsAre(Before(sizes, order, n - 1), limit);
      CompleteReaches(last, TotalBytes(sizes, order[..n]));
      ReachNextBound(earlier, last, TotalBytes(sizes, order[..n - 1]), TotalBytes(sizes, order[..n]));
    }
  }

  /** In any order, only the last event is complete exactly when the last blob is not empty. */
  lemma CompleteOnlyAtTheEnd(sizes: string -> nat, order: seq<string>, limit: nat)
    requires limit > 0 && TotalBytes(sizes, order) > 0
    ensures OnlyLastIsComplete(Events(sizes, order, |order|, limit), TotalBytes(sizes, order))
       <==> sizes(order[|order| - 1]) > 0
  {
    var n := |order| - 1;
    var earlier, last := Events(sizes, order, n, limit), BlobEvents(Before(sizes, order, n), limit);
    assert order[..n + 1] == order;
    TotalOfPrefix(sizes, order, n);
    EventsAre(sizes, order, n, limit);
    BlobEventsAre(Before(sizes, order, n), limit);
    if sizes(order[n]) > 0 {
      LastBlobCompletes(earlier, last, TotalBytes(sizes, order[..n]), TotalBytes(sizes, order));
    } else {
      EarlierBlobCompletes(earlier, last, TotalBytes(sizes, order));
    }
  }

  lemma LastBlobCompletes(earlier: seq<Event>, last: seq<Event>, before: nat, total: nat)
    requires OnlyLastIsComplete(last, total) && before < total && (earlier == [] || ReachBound(earlier, before))
    ensures OnlyLastIsComplete(earlier + last, total)
  {
  }

  lemma EarlierBlobCompletes(earlier: seq<Event>, last: seq<Event>, total: nat)
    requires last != [] && ReachBound(earlier, total)
    ensures !OnlyLastIsComplete(earlier + last, total)
  {
    assert (earlier + last)[|earlier| - 1] == earlier[|earlier| - 1];
  }

  lemma {:induction false} LargestIsPositive(sizes: string -> nat, order: seq<string>)
    requires order != [] && forall i :: 0 <= i < |order| ==> sizes(order[i]) <= sizes(order[|order| - 1])
    ensures TotalBytes(sizes, order) > 0 ==> sizes(order[|order| - 1]) > 0
  {
    if sizes(order[|order| - 1]) == 0 {
      AllEmpty(sizes, order);
    }
  }

  lemma {:induction false} AllEmpty(sizes: string -> nat, order: seq<string>)
    requires forall i :: 0 <= i < |order| ==> sizes(order[i]) == 0
    ensures TotalBytes(sizes, order) == 0
  {
    if order != [] {
      AllEmpty(sizes, order[..|order| - 1]);
    }
  }

  /** Smallest first, `received` equals `total` only in the last event. */
  lemma SmallestFirstCompletesLast(sizes: string -> nat, ids: seq<string>, cached: set<string>, limit: nat)
    requires limit > 0 && TotalBytes(sizes, DownloadOrder(sizes, ids, cached)) > 0
    ensures var order := DownloadOrder(sizes, ids, cached);
            OnlyLastIsComplete(Events(sizes, order, |order|, limit), TotalBytes(sizes, order))
  {
    var order := DownloadOrder(sizes, ids, cached);
    var notLarger := (a, b) => NotLarger(sizes, a, b);
    SortIsOrdered(Uncached(ids, cached), notLarger);
    forall i | 0 <= i < |order|
      ensures sizes(order[i]) <= sizes(order[|order| - 1])
    {
      assert i < |order| - 1 ==> notLarger(order[i], order[|order| - 1]);
    }
    LargestIsPositive(sizes, order);
    CompleteOnlyAtTheEnd(sizes, order, limit);
  }

  // ----- the whole download -----

  function ProgressEvents(e: Event, progress: seq<nat>): (events: seq<Event>)
    ensures |events| == |progress|
    ensures forall i :: 0 <= i < |progress| ==>
              events[i] == e.(blobReceived := progress[i], received := e.received + progress[i])
  {
    if progress == [] then []
    else [e.(blobReceived := progress[0], received := e.received + progress[0])] + ProgressEvents(e, progress[1..])
  }

  /** What a download depends on: the network for each blob, which blobs can be
      written to the cache, their signed lengths, and the client's limit. */
  datatype Download = Download(
    networks: string -> Network, writes: string -> bool, digest: Bytes -> string, sizes: string -> nat,
    revision: string, limit: nat)

  predicate IsUsable(dl: Download) {
    0 < dl.limit <= MAX_SAFE_INTEGER
  }

  /** The bytes of one blob once it is cached, or what stopped it. */
  function Arriving(dl: Download, id: string): (result: Result<Bytes, ClientError>)
    ensures result.Ok? ==> dl.digest(result.value) == id && |result.value| == dl.sizes(id) && dl.writes(id)
  {
    var bytes := Retrieved(dl.networks(id), dl.digest, Request(Some(dl.revision), id, Some(dl.sizes(id)), dl.limit));
    if bytes.Ok? && !dl.writes(id) then Err(CacheWrite) else bytes
  }

  /** The cache holds the first `n` blobs of the order and nothing else, each with
      the bytes that arrived for it. */
  ghost predicate AreFetched(dl: Download, cache: map<string, Bytes>, order: seq<string>, n: nat) {
    && n <= |order| && (forall id :: id in cache <==> id in order[..n])
    && forall id :: id in cache ==> Arriving(dl, id) == Ok(cache[id])
  }

  /** Fetch the missing blobs in order until one fails; those before it stay in the cache. */
  method DownloadMissing(dl: Download, order: seq<string>)
      returns (cache: map<string, Bytes>, events: seq<Event>, failure: Option<ClientError>, ghost fetched: nat)
    requires IsUsable(dl)
    ensures AreFetched(dl, cache, order, fetched)
    ensures failure.None? ==> fetched == |order|
    ensures failure.Some? ==> fetched < |order| && Arriving(dl, order[fetched]) == Err(failure.value)
    ensures events <= Events(dl.sizes, order, |order|, dl.limit)
    ensures failure.None? ==> events == Events(dl.sizes, order, |order|, dl.limit)
  {
    cache, events, fetched := map[], [], 0;
    var total, received: nat := TotalBytes(dl.sizes, order), 0;
    for index := 0 to |order|
      invariant fetched == index && HaveDownloaded(dl, cache, events, received, order, index)
    {
      var id := order[index];
      var event := Event(id, index + 1, |order|, 0, dl.sizes(id), received, total);
      var result, blobEvents := DownloadOne(dl, event);
      if result.Err? {
        EventsGrowBy(dl.sizes, order, index, dl.limit, blobEvents);
        return cache, events + blobEvents, Some(result.error), fetched;
      }
      OneMoreDownloaded(dl, cache, events, received, order, index);
      cache, events, received := cache[id := result.value], events + blobEvents, received + dl.sizes(id);
      fetched := fetched + 1;
    }
    return cache, events, None, fetched;
  }

  /** At the head of the loop: the first `n` blobs are cached and reported. */
  ghost predicate HaveDownloaded(
      dl: Download, cache: map<string, Bytes>, events: seq<Event>, received: nat, order: seq<string>, n: nat)
  {
    && IsUsable(dl) && AreFetched(dl, cache, order, n)
    && received == TotalBytes(dl.sizes, order[..n]) && events == Events(dl.sizes, order, n, dl.limit)
  }

  lemma OneMoreDownloaded(
      dl: Download, cache: map<string, Bytes>, events: seq<Event>, received: nat, order: seq<string>, n: nat)
    requires HaveDownloaded(dl, cache, events, received, order, n) && n < |order| && Arriving(dl, order[n]).Ok?
    ensures HaveDownloaded(
              dl, cache[order[n] := Arriving(dl, order[n]).value],
              events + BlobEvents(Before(dl.sizes, order, n), dl.limit), received + dl.sizes(order[n]), order, n + 1)
  {
    OneMoreFetched(dl, cache, order, n);
    TotalOfPrefix(dl.sizes, order, n);
  }

  lemma OneMoreFetched(dl: Download, cache: map<string, Bytes>, order: seq<string>, n: nat)
    requires n < |order| && AreFetched(dl, cache, order, n) && Arriving(dl, order[n]).Ok?
    ensures AreFetched(dl, cache[order[n] := Arriving(dl, order[n]).value], order, n + 1)
  {
    PrefixNext(order, n);
  }

  /** One blob: report each range as it arrives, write it to the cache, and report an
      empty blob once it is there. */
  method DownloadOne(dl: Download, event: Event) returns (result: Result<Bytes, ClientError>, events: seq<Event>)
    requires IsUsable(dl) && event.blobReceived == 0 && event.blobBytes == dl.sizes(event.blob)
    ensures result == Arriving(dl, event.blob)
    ensures events <= BlobEvents(event, dl.limit) && (result.Ok? ==> events == BlobEvents(event, dl.limit))
  {
    var requests, progress;
    result, requests, progress := RetrieveBlob(
      dl.networks(event.blob), dl.digest, Request(Some(dl.revision), event.blob, Some(event.blobBytes), dl.limit));
    ProgressIsPrefix(event, dl.limit, requests, progress, result.Ok?);
    events := ProgressEvents(event, progress);
    if result.Ok? && !dl.writes(event.blob) {
      result := Err(CacheWrite);
    }
    if result.Ok? && event.blobBytes == 0 {
      events := [event];
    }
  }

  lemma EventsGrowBy(sizes: string -> nat, order: seq<string>, n: nat, limit: nat, more: seq<Event>)
    requires n < |order| && limit > 0 && more <= BlobEvents(Before(sizes, order, n), limit)
    ensures Events(sizes, order, n, limit) + more <= Events(sizes, order, |order|, limit)
  {
    EventsGrow(sizes, order, n + 1, limit);
    PrefixAfter(Events(sizes, order, n, limit), more, BlobEvents(Before(sizes, order, n), limit));
  }

  lemma PrefixAfter(a: seq<Event>, b: seq<Event>, c: seq<Event>)
    requires b <= c
    ensures a + b <= a + c
  {
  }

  lemma {:induction false} EventsGrow(sizes: string -> nat, order: seq<string>, n: nat, limit: nat)
    requires n <= |order| && limit > 0
    ensures Events(sizes, order, n, limit) <= Events(sizes, order, |order|, limit)
    decreases |order| - n
  {
    if n < |order| {
      EventsGrow(sizes, order, n + 1, limit);
    }
  }

  /** Progress reports are the events of the blob's first ranges, and all of them when the blob arrives. */
  lemma ProgressIsPrefix(e: Event, limit: nat, requests: seq<Range>, progress: seq<nat>, complete: bool)
    requires limit > 0 && e.blobReceived == 0 && requests <= Ranges(e.blobBytes, limit, 0)
    requires e.blobBytes == 0 ==> progress == []
    requires e.blobBytes > 0 ==>
               |progress| <= |requests| && forall i :: 0 <= i < |progress| ==> progress[i] == requests[i].end + 1
    requires complete ==> requests == Ranges(e.blobBytes, limit, 0) && (e.blobBytes > 0 ==> |progress| == |requests|)
    ensures ProgressEvents(e, progress) <= BlobEvents(e, limit)
    ensures complete && e.blobBytes > 0 ==> ProgressEvents(e, progress) == BlobEvents(e, limit)
  {
    if e.blobBytes > 0 {
      var all, some := BlobEvents(e, limit), ProgressEvents(e, progress);
      assert forall i :: 0 <= i < |some| ==> some[i] == all[i];
    }
  }

  // ----- every answer of the Source -----

  /** The answer carries exactly the stored bytes from `start` up to `end`. */
  ghost predicate CarriesBytes(answer: Response, blob: Blob, start: nat, end: nat)
    requires IsTableRow(blob)
  {
    && start < end && answer.status == 206 && |answer.body| == end - start
    && answer.contentLength == Some(end - start) && answer.contentRange == Some((start, end - 1, blob.totalBytes))
    && forall i :: 0 <= i < end - start ==>
         HasByte(blob, start + i) && answer.body[i] == ByteOf(blob, start + i)
  }

  lemma InsideIsCarried(limit: nat, range: Range, blob: Blob)
    requires IsTableRow(blob) && IsBoundedRange(limit, Some(range)) && range.end - range.start < MAX_SAFE_INTEGER
    requires range.start < blob.totalBytes
    ensures var answer, end := Served(limit, Some(range), Some(blob)), Min(blob.totalBytes, range.end + 1);
            if RowsCarry(blob, range.start, end) then CarriesBytes(answer, blob, range.start, end)
            else answer == Response(500, [], None, None)
  {
    AnyRangeIsExact(blob, range.start, range.end - range.start + 1, Min(blob.totalBytes, range.end + 1));
  }

  /** Which answer a request gets: 400 without one bounded range or behind the end, 404
      without an authorized blob, 500 when rows are missing or too long, 200 for an
      empty blob, and otherwise 206 with exactly the stored bytes up to the end. */
  lemma ServedMeans(limit: nat, range: Option<Range>, authorized: Option<Blob>)
    requires authorized.Some? ==> IsTableRow(authorized.value)
    ensures var answer := Served(limit, range, authorized);
            if !IsBoundedRange(limit, range) then answer == Response(400, [], None, None)
            else if authorized.None? then answer == Response(404, [], None, None)
            else
              var blob, start := authorized.value, range.value.start;
              var end := Min(blob.totalBytes, range.value.end + 1);
              if range.value.end - start >= MAX_SAFE_INTEGER then answer == Response(500, [], None, None)
              else if blob.totalBytes == 0 && start == 0 then answer == Response(200, [], Some(0), None)
              else if blob.totalBytes <= start then answer == Response(400, [], None, None)
              else if RowsCarry(blob, start, end) then CarriesBytes(answer, blob, start, end)
              else answer == Response(500, [], None, None)
  {
    if IsBoundedRange(limit, range) && authorized.Some? {
      var start, length := range.value.start, range.value.end - range.value.start + 1;
      if length <= MAX_SAFE_INTEGER && start < authorized.value.totalBytes {
        InsideIsCarried(limit, range.value, authorized.value);
      } else {
        OtherRanges(authorized.value, start, length);
      }
    }
  }

  // ----- every answer the Follower takes -----

  /** The answer to one planned request is a whole part of the blob. */
  ghost predicate IsPart(network: Network, total: nat, limit: nat, attempt: nat, range: Range, part: Bytes) {
    && |part| == range.end - range.start + 1 <= limit
    && network(attempt, range)
       == Ok(Response(206, part, Some(|part|), Some((range.start, range.end, total))))
  }

  /** Each planned request is answered with its part. */
  ghost predicate AreParts(
      network: Network, total: nat, limit: nat, attempt: nat, ranges: seq<Range>, parts: seq<Bytes>) {
    && |parts| == |ranges|
    && forall i :: 0 <= i < |ranges| ==> IsPart(network, total, limit, attempt + i, ranges[i], parts[i])
  }

  lemma TurnIsPart(network: Network, total: nat, limit: nat, offset: nat, attempt: nat, part: Bytes)
    requires limit > 0 && offset < total
    ensures Turn(network, total, limit, offset, attempt) == Ok(part)
       <==> IsPart(network, total, limit, attempt, NextRange(total, limit, offset), part)
  {
  }

  lemma PartsNext(
      network: Network, total: nat, limit: nat, attempt: nat, range: Range, rest: seq<Range>, part: Bytes,
      others: seq<Bytes>)
    ensures AreParts(network, total, limit, attempt, [range] + rest, [part] + others)
       <==> IsPart(network, total, limit, attempt, range, part)
            && AreParts(network, total, limit, attempt + 1, rest, others)
  {
    var ranges, parts := [range] + rest, [part] + others;
    if AreParts(network, total, limit, attempt, ranges, parts) {
      assert IsPart(network, total, limit, attempt + 0, ranges[0], parts[0]);
      forall i | 0 <= i < |rest| ensures IsPart(network, total, limit, attempt + 1 + i, rest[i], others[i]) {
        assert IsPart(network, total, limit, attempt + (i + 1), ranges[i + 1], parts[i + 1]);
      }
    }
    if IsPart(network, total, limit, attempt, range, part)
       && AreParts(network, total, limit, attempt + 1, rest, others) {
      forall i | 0 <= i < |ranges| ensures IsPart(network, total, limit, attempt + i, ranges[i], parts[i]) {
        if i > 0 {
          assert IsPart(network, total, limit, attempt + 1 + (i - 1), rest[i - 1], others[i - 1]);
        }
      }
    }
  }

  /** The parts are those of the ranges from `offset` on, and spell what a fetch from there gives. */
  ghost predicate SpellsRest(
      network: Network, total: nat, limit: nat, offset: nat, attempt: nat, parts: seq<Bytes>)
    requires limit > 0 && offset <= total
  {
    && Rest(network, total, limit, offset, attempt) == Ok(Flatten(parts))
    && if offset == total then parts == []
       else AreParts(network, total, limit, attempt, Ranges(total, limit, offset), parts)
  }

  lemma OneMorePart(
      network: Network, total: nat, limit: nat, offset: nat, attempt: nat, part: Bytes, others: seq<Bytes>)
    requires limit > 0 && offset < total && Turn(network, total, limit, offset, attempt) == Ok(part)
    requires SpellsRest(network, total, limit, offset + |part|, attempt + 1, others)
    ensures SpellsRest(network, total, limit, offset, attempt, [part] + others)
  {
    var range := NextRange(total, limit, offset);
    var rest := Ranges(total, limit, range.end + 1);
    TurnIsPart(network, total, limit, offset, attempt, part);
    PartsNext(network, total, limit, attempt, range, rest, part, others);
    assert ([part] + others)[1..] == others;
    RestStep(network, total, limit, offset, attempt, part, Flatten(others));
  }

  lemma {:induction false} RestIsParts(
      network: Network, total: nat, limit: nat, offset: nat, attempt: nat) returns (parts: seq<Bytes>)
    requires limit > 0 && offset <= total && Rest(network, total, limit, offset, attempt).Ok?
    ensures SpellsRest(network, total, limit, offset, attempt, parts)
    decreases total - offset
  {
    parts := [];
    if offset < total {
      var part := Turn(network, total, limit, offset, attempt).value;
      var others := RestIsParts(network, total, limit, offset + |part|, attempt + 1);
      OneMorePart(network, total, limit, offset, attempt, part, others);
      parts := [part] + others;
    }
  }

  lemma FirstPart(network: Network, total: nat, limit: nat, offset: nat, attempt: nat, parts: seq<Bytes>)
    requires limit > 0 && offset < total
    requires AreParts(network, total, limit, attempt, Ranges(total, limit, offset), parts)
    ensures var range := NextRange(total, limit, offset);
            && parts != [] && Turn(network, total, limit, offset, attempt) == Ok(parts[0])
            && offset + |parts[0]| == range.end + 1 <= total
            && AreParts(network, total, limit, attempt + 1, Ranges(total, limit, range.end + 1), parts[1..])
  {
    var range := NextRange(total, limit, offset);
    var rest := Ranges(total, limit, range.end + 1);
    assert Ranges(total, limit, offset) == [range] + rest && parts == [parts[0]] + parts[1..];
    PartsNext(network, total, limit, attempt, range, rest, parts[0], parts[1..]);
    TurnIsPart(network, total, limit, offset, attempt, parts[0]);
  }

  lemma {:induction false} PartsAreRest(
      network: Network, total: nat, limit: nat, offset: nat, attempt: nat, parts: seq<Bytes>)
    requires limit > 0 && 0 < total && offset <= total && (offset == total ==> parts == [])
    requires offset < total ==> AreParts(network, total, limit, attempt, Ranges(total, limit, offset), parts)
    ensures Rest(network, total, limit, offset, attempt) == Ok(Flatten(parts))
    decreases total - offset
  {
    if offset < total {
      FirstPart(network, total, limit, offset, attempt, parts);
      PartsAreRest(network, total, limit, offset + |parts[0]|, attempt + 1, parts[1..]);
    }
  }

  /** Bytes of a blob that is not empty are accepted exactly when every planned request
      is answered with its whole part and the parts in order have the signed digest. */
  lemma AcceptedIffParts(network: Network, digest: Bytes -> string, r: Request, bytes: Bytes)
    requires r.bytes.Some? && r.bytes.value > 0 && 0 < r.maximumBlobBytes <= MAX_SAFE_INTEGER && r.revision.Some?
    ensures Retrieved(network, digest, r) == Ok(bytes)
       <==> digest(bytes) == r.id
            && exists parts: seq<Bytes> ::
                 AreParts(network, r.bytes.value, r.maximumBlobBytes, 0,
                          Ranges(r.bytes.value, r.maximumBlobBytes, 0), parts)
                 && Flatten(parts) == bytes
  {
    var total, limit := r.bytes.value, r.maximumBlobBytes;
    if Retrieved(network, digest, r) == Ok(bytes) {
      var parts := RestIsParts(network, total, limit, 0, 0);
    }
    if parts: seq<Bytes> :|
        AreParts(network, total, limit, 0, Ranges(total, limit, 0), parts) && Flatten(parts) == bytes {
      PartsAreRest(network, total, limit, 0, 0, parts);
    }
  }

  /** A blob that is not empty arrives in the cache exactly when its parts do, with its
      digest, and it can be written. */
  lemma ArrivesIff(dl: Download, id: string, bytes: Bytes)
    requires IsUsable(dl) && dl.sizes(id) > 0
    ensures Arriving(dl, id) == Ok(bytes)
       <==> dl.writes(id) && dl.digest(bytes) == id
            && exists parts: seq<Bytes> ::
                 AreParts(dl.networks(id), dl.sizes(id), dl.limit, 0, Ranges(dl.sizes(id), dl.limit, 0), parts)
                 && Flatten(parts) == bytes
  {
    AcceptedIffParts(dl.networks(id), dl.digest, Request(Some(dl.revision), id, Some(dl.sizes(id)), dl.limit), bytes);
  }

  // ----- why a fetch fails -----

  /** The error is what is wrong with one answer. */
  predicate IsFault(answer: Result<Response, ClientError>, limit: nat, range: Range, total: nat, e: ClientError) {
    match answer
    case Err(error) => e == error
    case Ok(response) =>
      if |response.body| > limit then e == SizeLimit
      else if response.status != 206 then e == Refused
      else e == Malformed && !IsExactAnswer(response, range, total)
  }

  /** The planned request was answered with its part. */
  predicate IsAnswered(network: Network, total: nat, limit: nat, attempt: nat, range: Range) {
    var answer := network(attempt, range);
    && answer.Ok? && |answer.value.body| <= limit && answer.value.status == 206
    && IsExactAnswer(answer.value, range, total)
  }

  /** Of the ranges from `offset` on, the first `i` are answered with their parts, and the next answer is faulty. */
  ghost predicate FailsAt(
      network: Network, total: nat, limit: nat, offset: nat, attempt: nat, i: nat, e: ClientError)
    requires limit > 0
  {
    var ranges := Ranges(total, limit, offset);
    && i < |ranges| && IsFault(network(attempt + i, ranges[i]), limit, ranges[i], total, e)
    && forall k :: 0 <= k < i ==> IsAnswered(network, total, limit, attempt + k, ranges[k])
  }

  lemma FailsLater(
      network: Network, total: nat, limit: nat, offset: nat, attempt: nat, i: nat, e: ClientError)
    requires limit > 0 && offset < total
    requires IsAnswered(network, total, limit, attempt, NextRange(total, limit, offset))
    requires FailsAt(network, total, limit, NextRange(total, limit, offset).end + 1, attempt + 1, i, e)
    ensures FailsAt(network, total, limit, offset, attempt, i + 1, e)
  {
    var ranges, rest := Ranges(total, limit, offset), Ranges(total, limit, NextRange(total, limit, offset).end + 1);
    assert ranges == [NextRange(total, limit, offset)] + rest;
    forall k | 0 <= k < i + 1 ensures IsAnswered(network, total, limit, attempt + k, ranges[k]) {
      if k > 0 {
        assert IsAnswered(network, total, limit, attempt + 1 + (k - 1), rest[k - 1]);
      }
    }
  }

  /** A fetch that fails stops at the first answer with a fault and reports it. */
  lemma {:induction false} FirstFaultIsReported(
      network: Network, total: nat, limit: nat, offset: nat, attempt: nat) returns (i: nat)
    requires limit > 0 && offset < total && Rest(network, total, limit, offset, attempt).Err?
    ensures FailsAt(network, total, limit, offset, attempt, i, Rest(network, total, limit, offset, attempt).error)
    decreases total - offset
  {
    i := 0;
    var turn := Turn(network, total, limit, offset, attempt);
    if turn.Ok? {
      var range := NextRange(total, limit, offset);
      TurnIsPart(network, total, limit, offset, attempt, turn.value);
      var later := FirstFaultIsReported(network, total, limit, range.end + 1, attempt + 1);
      FailsLater(network, total, limit, offset, attempt, later, Rest(network, total, limit, offset, attempt).error);
      i := later + 1;
    }
  }

  /** A retrieval reports a bad limit, missing metadata, the first faulty answer, or
      bytes without the signed digest. */
  lemma RetrievalErrorIsTruthful(network: Network, digest: Bytes -> string, r: Request)
    requires Retrieved(network, digest, r).Err?
    ensures var e := Retrieved(network, digest, r).error;
            if !(0 < r.maximumBlobBytes <= MAX_SAFE_INTEGER) then e == SizeLimit
            else if r.revision.None? || r.bytes.None? then e == Malformed
            else
              var total, limit := r.bytes.value, r.maximumBlobBytes;
              (total > 0 && exists i: nat :: FailsAt(network, total, limit, 0, 0, i, e))
              || (total == 0 && IsEmptyFault(network(0, Range(0, 0)), limit, e))
              || (e == Integrity && exists bytes: Bytes :: |bytes| == total && digest(bytes) != r.id)
  {
    if 0 < r.maximumBlobBytes <= MAX_SAFE_INTEGER && r.revision.Some? && r.bytes.Some? {
      var total, limit := r.bytes.value, r.maximumBlobBytes;
      if total > 0 && Rest(network, total, limit, 0, 0).Err? {
        var i := FirstFaultIsReported(network, total, limit, 0, 0);
      }
    }
  }

  /** What is wrong with the one answer for an empty blob. */
  predicate IsEmptyFault(answer: Result<Response, ClientError>, limit: nat, e: ClientError) {
    match answer
    case Err(error) => e == error
    case Ok(response) =>
      if |response.body| > limit then e == SizeLimit else e == Malformed && !IsEmptyAnswer(response)
  }
}
