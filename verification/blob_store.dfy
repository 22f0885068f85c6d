/**
  Blobs kept as fixed-size chunks: `storeResourceBlob` and `readResourceBlobRange`
  (src/state/state-repository.layer.ts).
 */
module BlobStore {
  import opened Options
  import opened Binary
  import opened Sequences

  /** A manifest and the rows of its chunk table. */
  datatype Blob = Blob(totalBytes: nat, chunkBytes: nat, chunks: map<int, Bytes>)

  /** What the schema's checks guarantee. */
  predicate IsTableRow(b: Blob) {
    b.chunkBytes > 0
  }

  datatype BlobRange = BlobRange(pieces: seq<Bytes>, byteLength: nat, totalBytes: nat)

  datatype RangeError = InvalidBounds | Inconsistent

  function Min(a: int, b: int): int {
    if a < b then a else b
  }

  function Max(a: int, b: int): int {
    if a < b then b else a
  }

  /** `index * chunkBytes`, where a chunk starts. */
  function Start(chunkBytes: nat, index: nat): nat {
    if index == 0 then 0 else Start(chunkBytes, index - 1) + chunkBytes
  }

  lemma {:induction false} StartIsProduct(chunkBytes: nat, index: nat)
    ensures Start(chunkBytes, index) == index * chunkBytes
  {
    if index > 0 {
      StartIsProduct(chunkBytes, index - 1);
      assert index * chunkBytes == (index - 1) * chunkBytes + chunkBytes;
    }
  }

  /** Chunks do not overlap: a later one starts where an earlier one ends, or after. */
  lemma {:induction false} StartsAreApart(chunkBytes: nat, a: nat, b: nat)
    requires a < b
    ensures Start(chunkBytes, a) + chunkBytes <= Start(chunkBytes, b)
  {
    if a < b - 1 {
      StartsAreApart(chunkBytes, a, b - 1);
    }
  }

  // ----- storing -----

  /** The chunk at `index` of a file cut every `chunkBytes` bytes. */
  function Cut(file: Bytes, chunkBytes: nat, index: nat): Bytes {
    var start := Start(chunkBytes, index);
    if start < |file| then file[start..Min(|file|, start + chunkBytes)] else []
  }

  /** The rows are the first `count` chunks of the file. */
  ghost predicate HoldsFirst(chunks: map<int, Bytes>, file: Bytes, chunkBytes: nat, count: nat) {
    && (forall j :: j in chunks <==> 0 <= j < count)
    && forall j: nat :: j < count ==> chunks[j] == Cut(file, chunkBytes, j)
  }

  /** `count` chunks hold the whole file, none of them empty. */
  ghost predicate IsCount(length: nat, chunkBytes: nat, count: nat) {
    length <= Start(chunkBytes, count) && (count > 0 ==> Start(chunkBytes, count - 1) < length)
  }

  ghost predicate IsStoredIn(b: Blob, file: Bytes, count: nat) {
    b.totalBytes == |file| && IsCount(|file|, b.chunkBytes, count) && HoldsFirst(b.chunks, file, b.chunkBytes, count)
  }

  /** The rows hold exactly the file, cut in order. */
  ghost predicate IsStored(b: Blob, file: Bytes) {
    exists count :: IsStoredIn(b, file, count)
  }

  lemma HoldsNext(chunks: map<int, Bytes>, file: Bytes, chunkBytes: nat, index: nat)
    requires HoldsFirst(chunks, file, chunkBytes, index)
    ensures HoldsFirst(chunks[index := Cut(file, chunkBytes, index)], file, chunkBytes, index + 1)
  {
  }

  // ----- a blob already stored -----

  /** `Math.ceil(totalBytes / chunkBytes)` */
  function ChunkCount(totalBytes: nat, chunkBytes: nat): nat
    requires chunkBytes > 0
  {
    (totalBytes + chunkBytes - 1) / chunkBytes
  }

  /** The first `n` rows joined, if none is missing. */
  function Joined(chunks: map<int, Bytes>, n: nat): Option<Bytes> {
    if n == 0 then Some([])
    else
      var earlier := Joined(chunks, n - 1);
      if earlier.None? || n - 1 !in chunks then None else Some(earlier.value + chunks[n - 1])
  }

  /** The digest of the stored bytes, if no row is missing and their number is the manifest's. */
  function StoredDigest(b: Blob, digest: Bytes -> string): Option<string>
    requires IsTableRow(b)
  {
    var joined := Joined(b.chunks, ChunkCount(b.totalBytes, b.chunkBytes));
    if joined.Some? && |joined.value| == b.totalBytes then Some(digest(joined.value)) else None
  }

  /** Hash the rows one at a time. */
  method StoredChunkedBlobDigest(b: Blob, digest: Bytes -> string) returns (stored: Option<string>)
    requires IsTableRow(b)
    ensures stored == StoredDigest(b, digest)
  {
    var hashed: Bytes, count := [], ChunkCount(b.totalBytes, b.chunkBytes);
    for index := 0 to count
      invariant Joined(b.chunks, index) == Some(hashed)
    {
      if index !in b.chunks {
        MissingRowStays(b.chunks, index, count);
        return None;
      }
      hashed := hashed + b.chunks[index];
    }
    return if |hashed| == b.totalBytes then Some(digest(hashed)) else None;
  }

  lemma {:induction false} MissingRowStays(chunks: map<int, Bytes>, missing: nat, n: nat)
    requires missing !in chunks && missing < n
    ensures Joined(chunks, n).None?
  {
    if missing < n - 1 {
      MissingRowStays(chunks, missing, n - 1);
    }
  }

  lemma CountIsCeiling(length: nat, chunkBytes: nat, count: nat)
    requires chunkBytes > 0 && IsCount(length, chunkBytes, count)
    ensures ChunkCount(length, chunkBytes) == count
  {
    var ceiling := ChunkCount(length, chunkBytes);
    StartIsProduct(chunkBytes, ceiling);
    assert length + chunkBytes - 1 == ceiling * chunkBytes + (length + chunkBytes - 1) % chunkBytes;
    if ceiling < count {
      SameOrBefore(chunkBytes, ceiling, count - 1);
    } else if count < ceiling {
      StartsAreApart(chunkBytes, count, ceiling);
    }
  }

  lemma SameOrBefore(chunkBytes: nat, a: nat, b: nat)
    requires a <= b
    ensures Start(chunkBytes, a) <= Start(chunkBytes, b)
  {
    if a < b {
      StartsAreApart(chunkBytes, a, b);
    }
  }

  lemma {:induction false} StoredRowsJoin(b: Blob, file: Bytes, count: nat, n: nat)
    requires b.chunkBytes > 0 && IsStoredIn(b, file, count) && n <= count
    ensures Joined(b.chunks, n) == Some(file[..Min(|file|, Start(b.chunkBytes, n))])
  {
    if n > 0 {
      StoredRowsJoin(b, file, count, n - 1);
      StoredRow(b, file, count, n - 1);
      JoinCut(file, b.chunkBytes, n - 1);
    }
  }

  lemma StoredRow(b: Blob, file: Bytes, count: nat, j: nat)
    requires IsStoredIn(b, file, count) && j < count
    ensures j in b.chunks && b.chunks[j] == Cut(file, b.chunkBytes, j) && Start(b.chunkBytes, j) < |file|
  {
    SameOrBefore(b.chunkBytes, j, count - 1);
  }

  lemma JoinCut(file: Bytes, chunkBytes: nat, index: nat)
    requires Start(chunkBytes, index) < |file|
    ensures file[..Start(chunkBytes, index)] + Cut(file, chunkBytes, index)
         == file[..Min(|file|, Start(chunkBytes, index + 1))]
  {
  }

  /** The digest of what was stored is the file's. */
  lemma StoredDigestIsFiles(b: Blob, file: Bytes, digest: Bytes -> string)
    requires IsTableRow(b) && IsStored(b, file)
    ensures StoredDigest(b, digest) == Some(digest(file))
  {
    var count :| IsStoredIn(b, file, count);
    CountIsCeiling(|file|, b.chunkBytes, count);
    StoredRowsJoin(b, file, count, count);
    assert file[..|file|] == file;
  }

  /** Publishing a blob: a new one is written, one already stored is kept when its
      bytes have the declared length and digest. */
  method StoreResourceBlob(
      existing: Option<Blob>, file: Bytes, id: string, bytes: nat, chunkBytes: nat, digest: Bytes -> string)
      returns (stored: Option<Blob>)
    requires chunkBytes > 0 && (existing.Some? ==> IsTableRow(existing.value))
    ensures existing.Some? ==>
              var same := existing.value.totalBytes == bytes && StoredDigest(existing.value, digest) == Some(id);
              stored == if same then existing else None
    ensures existing.None? ==> (stored.Some? <==> |file| == bytes && digest(file) == id)
    ensures existing.None? && stored.Some? ==> IsStored(stored.value, file) && stored.value.chunkBytes == chunkBytes
    ensures stored.Some? ==> stored.value.totalBytes == bytes && StoredDigest(stored.value, digest) == Some(id)
  {
    if existing.Some? {
      if existing.value.totalBytes != bytes {
        return None;
      }
      var found := StoredChunkedBlobDigest(existing.value, digest);
      return if found == Some(id) then existing else None;
    }
    stored := WriteBlob(file, id, bytes, chunkBytes, digest);
    if stored.Some? {
      StoredDigestIsFiles(stored.value, file, digest);
    }
  }

  // ----- writing a blob -----

  /** Cut the file into rows while hashing it; a file whose length or digest is not
      the declared one is not stored. */
  method WriteBlob(
      file: Bytes, id: string, bytes: nat, chunkBytes: nat, digest: Bytes -> string) returns (stored: Option<Blob>)
    requires chunkBytes > 0
    ensures stored.Some? <==> |file| == bytes && digest(file) == id
    ensures stored.Some? ==>
              IsStored(stored.value, file) && stored.value.totalBytes == bytes && stored.value.chunkBytes == chunkBytes
  {
    var chunks: map<int, Bytes>, written, index := map[], 0, 0;
    while true
      invariant written == Start(chunkBytes, index) <= |file| && HoldsFirst(chunks, file, chunkBytes, index)
      invariant index > 0 ==> Start(chunkBytes, index - 1) < |file|
      decreases |file| - written
    {
      var filled := Min(chunkBytes, |file| - written);
      HoldsNext(chunks, file, chunkBytes, index);
      if filled > 0 {
        chunks := chunks[index := file[written..written + filled]];
      }
      written := written + filled;
      if filled < chunkBytes || written > bytes {
        assert filled < chunkBytes ==> IsCount(|file|, chunkBytes, if filled > 0 then index + 1 else index);
        assert written == |file| == bytes ==>
                 filled < chunkBytes
                 && IsStoredIn(Blob(bytes, chunkBytes, chunks), file, if filled > 0 then index + 1 else index);
        assert written == |file| ==> file[..written] == file;
        var same := written == bytes && digest(file[..written]) == id;
        return if same then Some(Blob(bytes, chunkBytes, chunks)) else None;
      }
      index := index + 1;
    }
  }

  // ----- reading -----

  /** `content.subarray(from, to)` for a start that is not negative. */
  function Subarray(content: Bytes, from: nat, to: int): (piece: Bytes)
    ensures |piece| == Max(0, Min(to, |content|) - from)
  {
    if from < Min(to, |content|) then content[from..Min(to, |content|)] else []
  }

  function Piece(b: Blob, j: nat, offset: nat, end: nat): Bytes
    requires j in b.chunks
  {
    CutPiece(j, b.chunks[j], b.chunkBytes, offset, end)
  }

  /** Chunk `j` is stored, is no longer than a chunk, and reaches as far as the range needs. */
  predicate CoversChunk(b: Blob, j: nat, end: nat) {
    j in b.chunks && |b.chunks[j]| <= b.chunkBytes && Min(b.chunkBytes, end - Start(b.chunkBytes, j)) <= |b.chunks[j]|
  }

  predicate Covers(b: Blob, first: nat, last: nat, end: nat) {
    forall j: nat | first <= j <= last :: CoversChunk(b, j, end)
  }

  predicate HasRows(chunks: map<int, Bytes>, first: nat, next: nat) {
    forall j | first <= j < next :: j in chunks
  }

  lemma CoveredChunksExist(b: Blob, first: nat, last: nat, end: nat)
    requires Covers(b, first, last, end)
    ensures HasRows(b.chunks, first, last + 1)
  {
    forall j: nat | first <= j <= last
      ensures j in b.chunks
    {
      assert CoversChunk(b, j, end);
    }
  }

  /** The parts of chunks `first` to `next - 1` inside the range. */
  function Pieces(b: Blob, first: nat, next: nat, offset: nat, end: nat): seq<Bytes>
    requires first <= next && HasRows(b.chunks, first, next)
  {
    if first == next then [] else Pieces(b, first, next - 1, offset, end) + [Piece(b, next - 1, offset, end)]
  }

  predicate AreBounds(offset: int, maximumBytes: int) {
    0 <= offset <= MAX_SAFE_INTEGER && 0 < maximumBytes <= MAX_SAFE_INTEGER
  }

  /** The range starts in chunk `first` and ends in chunk `last`. */
  ghost predicate Spans(k: nat, first: nat, last: nat, offset: nat, end: nat) {
    && k > 0 && offset < end && first <= last
    && Start(k, first) <= offset < Start(k, first) + k
    && Start(k, last) < end <= Start(k, last) + k
  }

  lemma FirstAndLast(k: nat, offset: nat, end: nat)
    requires k > 0 && offset < end
    ensures offset / k <= (end - 1) / k && Spans(k, offset / k, (end - 1) / k, offset, end)
  {
    DividedIsInside(k, offset);
    DividedIsInside(k, end - 1);
    if offset / k > (end - 1) / k {
      StartsAreApart(k, (end - 1) / k, offset / k);
      assert false;
    }
  }

  lemma DividedIsInside(k: nat, at: nat)
    requires k > 0
    ensures Start(k, at / k) <= at < Start(k, at / k) + k
  {
    StartIsProduct(k, at / k);
    assert at == (at / k) * k + at % k;
  }

  /** Where chunk `j` lies in the range, and what it adds to the bytes wanted so far. */
  lemma NextChunk(k: nat, first: nat, j: nat, last: nat, offset: nat, end: nat)
    requires Spans(k, first, last, offset, end) && first <= j <= last
    ensures offset < Start(k, j) + k && Start(k, j) < end && (j > first ==> offset < Start(k, j))
    ensures Reach(k, first, j + 1, offset, end)
         == Reach(k, first, j, offset, end) + Min(end, Start(k, j) + k) - Max(offset, Start(k, j))
  {
    if j > first {
      StartsAreApart(k, first, j);
    }
    if j < last {
      StartsAreApart(k, j, last);
    }
  }

  /** A range is served exactly when every chunk it touches covers its part. */
  function ReadRange(b: Blob, offset: int, maximumBytes: int): Result<BlobRange, RangeError>
    requires IsTableRow(b)
  {
    if !AreBounds(offset, maximumBytes) then Err(InvalidBounds)
    else
      var end := Min(b.totalBytes, offset + maximumBytes);
      if end <= offset then Ok(BlobRange([], 0, b.totalBytes))
      else
        var first, last := offset / b.chunkBytes, (end - 1) / b.chunkBytes;
        if !Covers(b, first, last, end) then Err(Inconsistent)
        else
          FirstAndLast(b.chunkBytes, offset, end);
          CoveredChunksExist(b, first, last, end);
          Ok(BlobRange(Pieces(b, first, last + 1, offset, end), end - offset, b.totalBytes))
  }

  /** The stored rows between two indices, in order. */
  function RowsBetween(chunks: map<int, Bytes>, first: nat, last: int): seq<(nat, Bytes)>
    decreases last - first + 1
  {
    if first > last then []
    else (if first in chunks then [(first, chunks[first])] else []) + RowsBetween(chunks, first + 1, last)
  }

  /** The row at `position` is the next chunk exactly when that chunk is stored. */
  predicate NextRowIs(chunks: map<int, Bytes>, rows: seq<(nat, Bytes)>, first: nat, last: int, position: nat) {
    && position <= |rows|
    && (position < |rows| && rows[position].0 == first + position
        <==> first + position <= last && first + position in chunks)
    && (position < |rows| && rows[position].0 == first + position ==> rows[position].1 == chunks[first + position])
  }

  /** While no row is missing, the next row is the next chunk exactly when that chunk is stored. */
  lemma {:induction false} RowsInOrder(chunks: map<int, Bytes>, first: nat, last: int, position: nat)
    requires first + position <= last + 1 && HasRows(chunks, first, first + position)
    ensures NextRowIs(chunks, RowsBetween(chunks, first, last), first, last, position)
    decreases last - first + 1
  {
    if first <= last {
      if position > 0 {
        assert first in chunks && HasRows(chunks, first + 1, first + position);
        RowsInOrder(chunks, first + 1, last, position - 1);
      } else if first !in chunks {
        RowsAreFrom(chunks, first + 1, last);
      }
    }
  }

  lemma {:induction false} RowsAreFrom(chunks: map<int, Bytes>, first: nat, last: int)
    ensures forall r :: r in RowsBetween(chunks, first, last) ==> first <= r.0
    decreases last - first + 1
  {
    if first <= last {
      RowsAreFrom(chunks, first + 1, last);
    }
  }

  /** What one chunk adds: at most the rest of its part, and all of it exactly when the chunk covers it. */
  lemma PieceLength(b: Blob, j: nat, offset: nat, end: nat)
    requires j in b.chunks && |b.chunks[j]| <= b.chunkBytes && Start(b.chunkBytes, j) < end
    requires offset < Start(b.chunkBytes, j) + b.chunkBytes && offset < end
    ensures var from, to := Max(offset, Start(b.chunkBytes, j)), Min(end, Start(b.chunkBytes, j) + b.chunkBytes);
            |Piece(b, j, offset, end)| <= to - from
                && (|Piece(b, j, offset, end)| == to - from <==> CoversChunk(b, j, end))
  {
  }

  /** The bytes wanted from the chunks before `j`. */
  function Reach(k: nat, first: nat, j: nat, offset: nat, end: nat): int {
    if j == first then 0 else Min(end, Start(k, j)) - offset
  }

  method ReadResourceBlobRange(b: Blob, offset: int, maximumBytes: int) returns (range: Result<BlobRange, RangeError>)
    requires IsTableRow(b)
    ensures range == ReadRange(b, offset, maximumBytes)
  {
    if !AreBounds(offset, maximumBytes) {
      return Err(InvalidBounds);
    }
    var end := Min(b.totalBytes, offset + maximumBytes);
    if end <= offset {
      return Ok(BlobRange([], 0, b.totalBytes));
    }
    var first, last := offset / b.chunkBytes, (end - 1) / b.chunkBytes;
    FirstAndLast(b.chunkBytes, offset, end);
    var pieces, byteLength := ReadRows(b, first, last, offset, end);
    if byteLength != end - offset {
      return Err(Inconsistent);
    }
    return Ok(BlobRange(pieces, byteLength, b.totalBytes));
  }

  predicate CoversUpTo(b: Blob, first: nat, next: nat, end: nat) {
    forall j: nat | first <= j < next :: CoversChunk(b, j, end)
  }

  /** What the rows before `next` have given. */
  ghost predicate HaveRead(b: Blob, first: nat, next: nat, offset: nat, end: nat, pieces: seq<Bytes>, byteLength: int) {
    && first <= next && HasRows(b.chunks, first, next)
    && pieces == Pieces(b, first, next, offset, end)
    && byteLength <= Reach(b.chunkBytes, first, next, offset, end)
    && (byteLength == Reach(b.chunkBytes, first, next, offset, end) <==> CoversUpTo(b, first, next, end))
  }

  lemma ReadOne(b: Blob, first: nat, j: nat, last: nat, offset: nat, end: nat, pieces: seq<Bytes>, byteLength: int)
    requires Spans(b.chunkBytes, first, last, offset, end) && first <= j <= last
    requires HaveRead(b, first, j, offset, end, pieces, byteLength) && j in b.chunks && |b.chunks[j]| <= b.chunkBytes
    ensures Start(b.chunkBytes, j) < end
    ensures HaveRead(b, first, j + 1, offset, end, pieces + [Piece(b, j, offset, end)],
        byteLength + |Piece(b, j, offset, end)|)
  {
    NextChunk(b.chunkBytes, first, j, last, offset, end);
    PieceLength(b, j, offset, end);
    CoversOneMore(b, first, j, end);
    PiecesNext(b, first, j, offset, end);
  }

  lemma PiecesNext(b: Blob, first: nat, j: nat, offset: nat, end: nat)
    requires first <= j && HasRows(b.chunks, first, j) && j in b.chunks
    ensures HasRows(b.chunks, first, j + 1)
    ensures Pieces(b, first, j + 1, offset, end) == Pieces(b, first, j, offset, end) + [Piece(b, j, offset, end)]
  {
  }

  lemma CoversOneMore(b: Blob, first: nat, j: nat, end: nat)
    requires first <= j
    ensures CoversUpTo(b, first, j + 1, end) <==> CoversUpTo(b, first, j, end) && CoversChunk(b, j, end)
  {
  }

  /** The part of one row inside the range. */
  function CutPiece(index: nat, content: Bytes, chunkBytes: nat, offset: nat, end: nat): Bytes {
    Subarray(content, Max(0, offset - Start(chunkBytes, index)), Min(|content|, end - Start(chunkBytes, index)))
  }

  /** The loop over the rows: all bytes are found exactly when every chunk covers its part. */
  method ReadRows(b: Blob, first: nat, last: nat, offset: nat, end: nat) returns (pieces: seq<Bytes>, byteLength: nat)
    requires Spans(b.chunkBytes, first, last, offset, end)
    ensures byteLength == end - offset <==> Covers(b, first, last, end)
    ensures byteLength == end - offset ==>
              HasRows(b.chunks, first, last + 1) && pieces == Pieces(b, first, last + 1, offset, end)
  {
    var k := b.chunkBytes;
    var rows := RowsBetween(b.chunks, first, last);
    var position := 0;
    pieces, byteLength := [], 0;
    RowsInOrder(b.chunks, first, last, 0);
    while position < |rows|
      invariant 0 <= position <= |rows| && first + position <= last + 1
      invariant HaveRead(b, first, first + position, offset, end, pieces, byteLength)
      invariant NextRowIs(b.chunks, rows, first, last, position)
    {
      var index, content := rows[position].0, rows[position].1;
      if index != first + position || |content| > k {
        break;
      }
      ReadOne(b, first, index, last, offset, end, pieces, byteLength);
      assert HasRows(b.chunks, first, index + 1);
      var piece := CutPiece(index, content, k, offset, end);
      pieces := pieces + [piece];
      byteLength := byteLength + |piece|;
      position := position + 1;
      RowsInOrder(b.chunks, first, last, position);
    }
    if first + position <= last {
      MissingChunk(b, first, first + position, last, offset, end);
    } else {
      assert first + position == last + 1;
      AllRead(b, first, last, offset, end, pieces, byteLength);
    }
  }

  lemma AllRead(b: Blob, first: nat, last: nat, offset: nat, end: nat, pieces: seq<Bytes>, byteLength: int)
    requires Spans(b.chunkBytes, first, last, offset, end)
    requires HaveRead(b, first, last + 1, offset, end, pieces, byteLength)
    ensures byteLength == end - offset <==> Covers(b, first, last, end)
  {
    assert CoversUpTo(b, first, last + 1, end) <==> Covers(b, first, last, end);
    StartsAreApart(b.chunkBytes, last, last + 1);
  }

  /** Stopping before the last chunk leaves bytes missing, and that chunk does not cover its part. */
  lemma MissingChunk(b: Blob, first: nat, j: nat, last: nat, offset: nat, end: nat)
    requires Spans(b.chunkBytes, first, last, offset, end) && first <= j <= last
    requires j !in b.chunks || |b.chunks[j]| > b.chunkBytes
    ensures Reach(b.chunkBytes, first, j, offset, end) < end - offset && !Covers(b, first, last, end)
  {
    NextChunk(b.chunkBytes, first, j, last, offset, end);
    assert !CoversChunk(b, j, end);
  }

  // ----- reading back what was stored -----

  /** Chunk `j` gives the file's bytes in its part of the range. */
  ghost predicate IsSlice(b: Blob, file: Bytes, j: nat, offset: nat, end: nat) {
    var from, to := Max(offset, Start(b.chunkBytes, j)), Min(end, Start(b.chunkBytes, j) + b.chunkBytes);
    j in b.chunks && from <= to <= |file| && Piece(b, j, offset, end) == file[from..to]
  }

  ghost predicate AreSlices(b: Blob, file: Bytes, first: nat, last: nat, offset: nat, end: nat) {
    forall j: nat :: first <= j <= last ==> IsSlice(b, file, j, offset, end)
  }

  lemma {:induction false} SlicesMakeRange(
      b: Blob, file: Bytes, first: nat, next: nat, last: nat, offset: nat, end: nat)
    requires Spans(b.chunkBytes, first, last, offset, end) && first <= next <= last + 1 && end <= |file|
    requires AreSlices(b, file, first, last, offset, end)
    ensures HasReadFile(b, file, first, next, offset, end)
    decreases next - first
  {
    if first == next {
      NoPieces(b, file, first, next, offset, end);
    } else {
      SlicesMakeRange(b, file, first, next - 1, last, offset, end);
      OneMoreSlice(b, file, first, next - 1, last, offset, end);
    }
  }

  lemma OneMoreSlice(b: Blob, file: Bytes, first: nat, j: nat, last: nat, offset: nat, end: nat)
    requires Spans(b.chunkBytes, first, last, offset, end) && first <= j <= last && end <= |file|
    requires AreSlices(b, file, first, last, offset, end) && HasReadFile(b, file, first, j, offset, end)
    ensures HasReadFile(b, file, first, j + 1, offset, end)
  {
    assert IsSlice(b, file, j, offset, end);
    AppendPiece(b, file, first, j, last, offset, end);
  }

  lemma NoPieces(b: Blob, file: Bytes, first: nat, next: nat, offset: nat, end: nat)
    requires offset <= end <= |file| && first == next
    ensures HasReadFile(b, file, first, next, offset, end)
  {
  }

  /** The pieces before `next` are the bytes of the file from `offset` on. */
  ghost predicate HasReadFile(b: Blob, file: Bytes, first: nat, next: nat, offset: nat, end: nat) {
    && first <= next && HasRows(b.chunks, first, next) && offset <= end <= |file|
    && Reads(file, offset, Reach(b.chunkBytes, first, next, offset, end), Flatten(Pieces(b, first, next, offset, end)))
  }

  ghost predicate Reads(file: Bytes, offset: nat, length: int, bytes: Bytes) {
    0 <= length <= |file| - offset && bytes == file[offset..offset + length]
  }

  lemma AppendPiece(b: Blob, file: Bytes, first: nat, j: nat, last: nat, offset: nat, end: nat)
    requires Spans(b.chunkBytes, first, last, offset, end) && first <= j <= last && end <= |file|
    requires HasReadFile(b, file, first, j, offset, end) && IsSlice(b, file, j, offset, end)
    ensures HasReadFile(b, file, first, j + 1, offset, end)
  {
    var from, to := Max(offset, Start(b.chunkBytes, j)), Min(end, Start(b.chunkBytes, j) + b.chunkBytes);
    NextChunk(b.chunkBytes, first, j, last, offset, end);
    PiecesNext(b, first, j, offset, end);
    FlattenAppend(Pieces(b, first, j, offset, end), Piece(b, j, offset, end));
    ReadsOn(file, offset, from, to, Flatten(Pieces(b, first, j, offset, end)));
  }

  lemma ReadsOn(file: Bytes, offset: nat, from: nat, to: nat, bytes: Bytes)
    requires offset <= from <= to <= |file| && Reads(file, offset, from - offset, bytes)
    ensures Reads(file, offset, to - offset, bytes + file[from..to])
  {
    assert file[offset..from] + file[from..to] == file[offset..to];
  }

  lemma StoredChunkIsThere(b: Blob, file: Bytes, count: nat, j: nat, end: nat)
    requires IsStoredIn(b, file, count) && Start(b.chunkBytes, j) < end <= |file|
    ensures j in b.chunks && CoversChunk(b, j, end)
  {
    if j > count {
      StartsAreApart(b.chunkBytes, count, j);
    }
  }

  lemma StoredPiece(b: Blob, file: Bytes, count: nat, j: nat, offset: nat, end: nat)
    requires IsStoredIn(b, file, count) && offset < end <= |file|
    requires Start(b.chunkBytes, j) < end && offset < Start(b.chunkBytes, j) + b.chunkBytes && j in b.chunks
    ensures IsSlice(b, file, j, offset, end)
  {
    assert b.chunks[j] == Cut(file, b.chunkBytes, j);
    CutIsSlice(b, file, j, offset, end);
  }

  lemma CutIsSlice(b: Blob, file: Bytes, j: nat, offset: nat, end: nat)
    requires j in b.chunks && b.chunks[j] == Cut(file, b.chunkBytes, j) && offset < end <= |file|
    requires Start(b.chunkBytes, j) < end && offset < Start(b.chunkBytes, j) + b.chunkBytes
    ensures IsSlice(b, file, j, offset, end)
  {
    var start := Start(b.chunkBytes, j);
    var stop := Min(|file|, start + b.chunkBytes);
    var from, to := Max(0, offset - start), Min(stop - start, end - start);
    SliceOfSlice(file, start, stop, from, to);
    assert Piece(b, j, offset, end) == b.chunks[j][from..to];
  }

  /** Any range of a stored file is served, and its pieces are the file's bytes. */
  lemma StoredRangeIsExact(b: Blob, file: Bytes, offset: int, maximumBytes: int)
    requires IsTableRow(b) && IsStored(b, file) && AreBounds(offset, maximumBytes)
    ensures var range := ReadRange(b, offset, maximumBytes);
            range.Ok? && range.value.totalBytes == |file| && range.value.byteLength == |Flatten(range.value.pieces)|
            && Flatten(range.value.pieces)
                == (if offset < |file| then file[offset..Min(|file|, offset + maximumBytes)] else [])
  {
    var end := Min(b.totalBytes, offset + maximumBytes);
    if offset < end {
      StoredRangeIsCovered(b, file, offset, end);
    }
  }

  lemma StoredRangeIsCovered(b: Blob, file: Bytes, offset: nat, end: nat)
    requires IsTableRow(b) && IsStored(b, file) && offset < end <= |file|
    ensures var first, last := offset / b.chunkBytes, (end - 1) / b.chunkBytes;
            first <= last && Covers(b, first, last, end) && HasRows(b.chunks, first, last + 1)
            && Flatten(Pieces(b, first, last + 1, offset, end)) == file[offset..end]
  {
    FirstAndLast(b.chunkBytes, offset, end);
    var count :| IsStoredIn(b, file, count);
    StoredSpanIsCovered(b, file, count, offset / b.chunkBytes, (end - 1) / b.chunkBytes, offset, end);
  }

  lemma StoredSpanIsCovered(b: Blob, file: Bytes, count: nat, first: nat, last: nat, offset: nat, end: nat)
    requires IsStoredIn(b, file, count) && end <= |file| && Spans(b.chunkBytes, first, last, offset, end)
    ensures Covers(b, first, last, end) && HasRows(b.chunks, first, last + 1)
    ensures Flatten(Pieces(b, first, last + 1, offset, end)) == file[offset..end]
  {
    forall j: nat | first <= j <= last
      ensures CoversChunk(b, j, end) && IsSlice(b, file, j, offset, end)
    {
      NextChunk(b.chunkBytes, first, j, last, offset, end);
      StoredChunkIsThere(b, file, count, j, end);
      StoredPiece(b, file, count, j, offset, end);
    }
    SlicesMakeRange(b, file, first, last + 1, last, offset, end);
    StartsAreApart(b.chunkBytes, last, last + 1);
  }

  // ----- any rows, consistent or not -----

  /** Some row stores the byte at position `x`. */
  predicate HasByte(b: Blob, x: nat)
    requires IsTableRow(b)
  {
    x / b.chunkBytes in b.chunks && x % b.chunkBytes < |b.chunks[x / b.chunkBytes]|
  }

  function ByteOf(b: Blob, x: nat): Byte
    requires IsTableRow(b) && HasByte(b, x)
  {
    b.chunks[x / b.chunkBytes][x % b.chunkBytes]
  }

  ghost predicate HasBytes(b: Blob, offset: nat, end: nat)
    requires IsTableRow(b)
  {
    forall x: nat :: offset <= x < end ==> HasByte(b, x)
  }

  /** No row the range touches is longer than a chunk. */
  ghost predicate RowsAreBounded(b: Blob, first: nat, last: nat) {
    forall j: nat :: first <= j <= last && j in b.chunks ==> |b.chunks[j]| <= b.chunkBytes
  }

  lemma PositionInChunk(k: nat, j: nat, x: nat)
    requires k > 0 && Start(k, j) <= x < Start(k, j) + k
    ensures x / k == j && x % k == x - Start(k, j)
  {
    DividedIsInside(k, x);
    if x / k < j {
      StartsAreApart(k, x / k, j);
    } else if j < x / k {
      StartsAreApart(k, j, x / k);
    }
    StartIsProduct(k, j);
  }

  /** A chunk covers its part exactly when the last byte of the part is there. */
  lemma CoversIffLastByte(b: Blob, first: nat, j: nat, last: nat, offset: nat, end: nat)
    requires IsTableRow(b) && Spans(b.chunkBytes, first, last, offset, end) && first <= j <= last
    ensures var x := Min(Start(b.chunkBytes, j) + b.chunkBytes, end) - 1;
            && offset <= x < end && x >= 0
            && (CoversChunk(b, j, end) <==> HasByte(b, x) && j in b.chunks && |b.chunks[j]| <= b.chunkBytes)
  {
    var x := Min(Start(b.chunkBytes, j) + b.chunkBytes, end) - 1;
    NextChunk(b.chunkBytes, first, j, last, offset, end);
    PositionInChunk(b.chunkBytes, j, x);
  }

  /** The chunk of a position in the range is one the range touches, and earlier
      positions of a chunk are there when a later one is. */
  lemma ByteOfCovered(b: Blob, first: nat, last: nat, offset: nat, end: nat, x: nat)
    requires IsTableRow(b) && Spans(b.chunkBytes, first, last, offset, end) && offset <= x < end
    requires Covers(b, first, last, end)
    ensures first <= x / b.chunkBytes <= last && HasByte(b, x)
  {
    var k := b.chunkBytes;
    var j := x / k;
    DividedIsInside(k, x);
    if j < first {
      StartsAreApart(k, j, first);
    }
    if last < j {
      StartsAreApart(k, last, j);
    }
    assert CoversChunk(b, j, end);
    PositionInChunk(k, j, x);
  }

  lemma CoversIffHasBytes(b: Blob, first: nat, last: nat, offset: nat, end: nat)
    requires IsTableRow(b) && Spans(b.chunkBytes, first, last, offset, end)
    ensures Covers(b, first, last, end) <==> HasBytes(b, offset, end) && RowsAreBounded(b, first, last)
  {
    if Covers(b, first, last, end) {
      forall x: nat | offset <= x < end ensures HasByte(b, x) {
        ByteOfCovered(b, first, last, offset, end, x);
      }
      forall j: nat | first <= j <= last && j in b.chunks ensures |b.chunks[j]| <= b.chunkBytes {
        assert CoversChunk(b, j, end);
      }
    }
    if HasBytes(b, offset, end) && RowsAreBounded(b, first, last) {
      forall j: nat | first <= j <= last ensures CoversChunk(b, j, end) {
        CoversIffLastByte(b, first, j, last, offset, end);
        var x: nat := Min(Start(b.chunkBytes, j) + b.chunkBytes, end) - 1;
        NextChunk(b.chunkBytes, first, j, last, offset, end);
        PositionInChunk(b.chunkBytes, j, x);
        assert HasByte(b, x);
      }
    }
  }

  /** The bytes the rows spell up to a position, with zeros where there is none. */
  ghost function Spelled(b: Blob, end: nat): (bytes: Bytes)
    requires IsTableRow(b)
    ensures |bytes| == end && forall x: nat :: x < end && HasByte(b, x) ==> bytes[x] == ByteOf(b, x)
  {
    seq(end, x requires 0 <= x < end => if HasByte(b, x) then ByteOf(b, x) else 0)
  }

  lemma CoveredPieceIsSlice(b: Blob, first: nat, j: nat, last: nat, offset: nat, end: nat)
    requires IsTableRow(b) && Spans(b.chunkBytes, first, last, offset, end) && first <= j <= last
    requires CoversChunk(b, j, end)
    ensures IsSlice(b, Spelled(b, end), j, offset, end)
  {
    var k, file := b.chunkBytes, Spelled(b, end);
    NextChunk(k, first, j, last, offset, end);
    var from, to := Max(offset, Start(k, j)), Min(end, Start(k, j) + k);
    var piece := Piece(b, j, offset, end);
    assert |piece| == to - from;
    forall i | 0 <= i < to - from ensures piece[i] == file[from..to][i] {
      PositionInChunk(k, j, from + i);
      assert piece[i] == b.chunks[j][from + i - Start(k, j)];
    }
  }

  /** The range is the bytes that the rows store there, in order, and says so. */
  ghost predicate IsRangeOf(b: Blob, range: BlobRange, offset: nat, end: nat)
    requires IsTableRow(b)
  {
    && range.totalBytes == b.totalBytes && range.byteLength == |Flatten(range.pieces)| == end - offset
    && forall i :: 0 <= i < end - offset ==>
         HasByte(b, offset + i) && Flatten(range.pieces)[i] == ByteOf(b, offset + i)
  }

  /** Every byte is stored, and no row the range touches is too long. */
  ghost predicate RowsCarry(b: Blob, offset: nat, end: nat)
    requires IsTableRow(b)
  {
    offset < end && HasBytes(b, offset, end) && RowsAreBounded(b, offset / b.chunkBytes, (end - 1) / b.chunkBytes)
  }

  /** Whatever the rows are, a range that is not empty is served exactly when each of
      its bytes is stored and no row it touches is too long; and then the pieces are
      these bytes, in order. */
  lemma AnyRangeIsExact(b: Blob, offset: nat, maximumBytes: nat, end: nat)
    requires IsTableRow(b) && AreBounds(offset, maximumBytes) && offset < b.totalBytes
    requires end == Min(b.totalBytes, offset + maximumBytes)
    ensures ReadRange(b, offset, maximumBytes).Ok? <==> RowsCarry(b, offset, end)
    ensures ReadRange(b, offset, maximumBytes).Err? ==> ReadRange(b, offset, maximumBytes).error == Inconsistent
    ensures ReadRange(b, offset, maximumBytes).Ok? ==>
              IsRangeOf(b, ReadRange(b, offset, maximumBytes).value, offset, end)
  {
    var first, last := offset / b.chunkBytes, (end - 1) / b.chunkBytes;
    FirstAndLast(b.chunkBytes, offset, end);
    CoversIffHasBytes(b, first, last, offset, end);
    if Covers(b, first, last, end) {
      CoveredSpanIsRead(b, first, last, offset, end);
      SpelledIsRange(b, Pieces(b, first, last + 1, offset, end), offset, end);
    }
  }

  lemma SpelledIsRange(b: Blob, pieces: seq<Bytes>, offset: nat, end: nat)
    requires IsTableRow(b) && offset < end && HasBytes(b, offset, end)
    requires Flatten(pieces) == Spelled(b, end)[offset..end]
    ensures IsRangeOf(b, BlobRange(pieces, end - offset, b.totalBytes), offset, end)
  {
    forall i | 0 <= i < end - offset
      ensures HasByte(b, offset + i) && Flatten(pieces)[i] == ByteOf(b, offset + i)
    {
      assert Flatten(pieces)[i] == Spelled(b, end)[offset + i];
    }
  }

  lemma CoveredSpanIsRead(b: Blob, first: nat, last: nat, offset: nat, end: nat)
    requires IsTableRow(b) && Spans(b.chunkBytes, first, last, offset, end) && Covers(b, first, last, end)
    ensures HasRows(b.chunks, first, last + 1)
    ensures Flatten(Pieces(b, first, last + 1, offset, end)) == Spelled(b, end)[offset..end]
  {
    forall j: nat | first <= j <= last ensures IsSlice(b, Spelled(b, end), j, offset, end) {
      assert CoversChunk(b, j, end);
      CoveredPieceIsSlice(b, first, j, last, offset, end);
    }
    SlicesMakeRange(b, Spelled(b, end), first, last + 1, last, offset, end);
    StartsAreApart(b.chunkBytes, last, last + 1);
  }

  /** Bounds that are no positive safe integers are refused, and a range behind the end is empty. */
  lemma OtherRanges(b: Blob, offset: int, maximumBytes: int)
    requires IsTableRow(b)
    ensures ReadRange(b, offset, maximumBytes) == Err(InvalidBounds)
       <==> !(0 <= offset <= MAX_SAFE_INTEGER && 0 < maximumBytes <= MAX_SAFE_INTEGER)
    ensures AreBounds(offset, maximumBytes) && b.totalBytes <= offset ==>
              ReadRange(b, offset, maximumBytes) == Ok(BlobRange([], 0, b.totalBytes))
  {
  }
}
