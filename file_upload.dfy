/**
 * The resumable chunked upload: a selected file is classified by its MIME type, cut into
 * 50 KB chunks the first time an upload starts, and each chunk's `uploaded` flag is set
 * as its request completes, so that a resumed upload sends only the chunks still pending.
 * Progress is the ceiling of the uploaded share, as a percentage.
 */
module FileUpload {
  import opened Wrappers

  /** CHUNK_SIZE: 50 * 1024 bytes. */
  const ChunkSize: nat := 50 * 1024

  /** The part of a File the model needs: its size in bytes and its MIME type. */
  datatype File = File(size: nat, mimeType: string)

  /** A chunk: its position in the list, the byte range [start, stop) it covers, its flag. */
  datatype Chunk = Chunk(index: nat, start: nat, stop: nat, uploaded: bool)

  function Min(x: int, y: int): int { if x < y then x else y }

  // ---------------------------------------------------------------------------
  // Ceiling division, with the few facts about multiplication it needs

  lemma MulSucc(k: nat, m: nat)
    ensures (k + 1) * m == k * m + m
  {
  }

  lemma {:induction false} MulMonoImp(a: nat, b: nat, m: nat)
    ensures a <= b ==> a * m <= b * m
    decreases b
  {
    if a < b {
      MulMonoImp(a, b - 1, m);
      MulSucc(b - 1, m);
    }
  }

  lemma DivBounds(b: nat, m: nat)
    requires m > 0
    ensures (b / m) * m <= b < (b / m) * m + m
  {
    assert b == (b / m) * m + b % m;
  }

  /** ceil(n / m) on naturals: the least c with c * m >= n. */
  function CeilDiv(n: nat, m: nat): (c: nat)
    requires m > 0
    ensures c * m >= n
    ensures c > 0 ==> (c - 1) * m < n
  {
    var c := (n + m - 1) / m;
    DivBounds(n + m - 1, m);
    if c > 0 then MulSucc(c - 1, m); c else c
  }

  /** A multiple k * m reaches n exactly from k = ceil(n / m) on. */
  lemma CeilDivLeast(n: nat, m: nat, k: nat)
    requires m > 0
    ensures k * m >= n <==> k >= CeilDiv(n, m)
  {
    var c := CeilDiv(n, m);
    MulMonoImp(c, k, m);
    if c > 0 {
      MulMonoImp(k, c - 1, m);
    }
  }

  // ---------------------------------------------------------------------------
  // createFileChunks

  /** How many chunks a file of `size` bytes is cut into: ceil(size / chunkSize). */
  function ChunkCount(size: nat, chunkSize: nat): (c: nat)
    requires chunkSize > 0
    ensures c * chunkSize >= size
    ensures c > 0 ==> (c - 1) * chunkSize < size
  {
    CeilDiv(size, chunkSize)
  }

  /** The chunk list of a file: chunk k covers [k * chunkSize, min((k + 1) * chunkSize, size)). */
  function ChunkPlan(size: nat, chunkSize: nat): (r: seq<Chunk>)
    requires chunkSize > 0
    ensures |r| == ChunkCount(size, chunkSize)
  {
    seq(ChunkCount(size, chunkSize), k requires 0 <= k =>
      Chunk(k, k * chunkSize, Min((k + 1) * chunkSize, size), false))
  }

  /** Chunk k of the plan starts inside the file: k * chunkSize < size. */
  lemma ChunkStartsInside(size: nat, chunkSize: nat, k: nat)
    requires chunkSize > 0
    ensures k < ChunkCount(size, chunkSize) <==> k * chunkSize < size
  {
    CeilDivLeast(size, chunkSize, k);
  }

  lemma PrefixSnoc<T>(s: seq<T>, k: nat)
    requires k < |s|
    ensures s[..k + 1] == s[..k] + [s[k]]
  {
  }

  /**
   * createFileChunks: advance a cursor by `chunkSize` while it is inside the file, pushing a
   * not-yet-uploaded chunk for each step. `file.slice(cur, cur + size)` stops at the end of
   * the file, so the last chunk may be short.
   */
  method CreateFileChunks(size: nat, chunkSize: nat) returns (chunks: seq<Chunk>)
    requires chunkSize > 0
    ensures chunks == ChunkPlan(size, chunkSize)
  {
    ghost var plan := ChunkPlan(size, chunkSize);
    chunks := [];
    var cur := 0;
    while cur < size
      invariant cur == |chunks| * chunkSize
      invariant |chunks| <= |plan| && chunks == plan[..|chunks|]
      decreases size - cur
    {
      ghost var k := |chunks|;
      ChunkStartsInside(size, chunkSize, k);
      MulSucc(k, chunkSize);
      PrefixSnoc(plan, k);
      chunks := chunks + [Chunk(|chunks|, cur, Min(cur + chunkSize, size), false)];
      cur := cur + chunkSize;
    }
    ChunkStartsInside(size, chunkSize, |chunks|);
    assert plan[..|plan|] == plan;
  }

  /** An empty file has no chunks, a non-empty one at least one. */
  lemma ChunkCountZero(size: nat, chunkSize: nat)
    requires chunkSize > 0
    ensures ChunkCount(size, chunkSize) == 0 <==> size == 0
  {
    ChunkStartsInside(size, chunkSize, 0);
  }

  /**
   * The chunks tile the file in order: the first starts at 0, each one starts where the
   * previous one stopped, none is empty, the last stops at the end of the file, and each
   * one is at most `chunkSize` long.
   */
  lemma ChunkPlanTiles(size: nat, chunkSize: nat)
    requires chunkSize > 0
    ensures var r := ChunkPlan(size, chunkSize);
      && (|r| > 0 ==> r[0].start == 0 && r[|r| - 1].stop == size)
      && (forall k :: 0 <= k < |r| ==>
            r[k].index == k && !r[k].uploaded
            && r[k].start < r[k].stop <= size && r[k].stop - r[k].start <= chunkSize)
      && (forall k :: 0 < k < |r| ==> r[k].start == r[k - 1].stop)
  {
    var r := ChunkPlan(size, chunkSize);
    forall k | 0 <= k < |r|
      ensures r[k].start < r[k].stop <= size && r[k].stop - r[k].start <= chunkSize
    {
      ChunkStartsInside(size, chunkSize, k);
      MulSucc(k, chunkSize);
    }
    forall k | 0 < k < |r|
      ensures r[k].start == r[k - 1].stop
    {
      ChunkStartsInside(size, chunkSize, k);
      MulSucc(k - 1, chunkSize);
    }
    if |r| > 0 {
      MulSucc(|r| - 1, chunkSize);
    }
  }

  /** Every byte of the file belongs to chunk `b / chunkSize`. */
  lemma ChunkOfByte(size: nat, chunkSize: nat, b: nat)
    requires chunkSize > 0 && b < size
    ensures var r := ChunkPlan(size, chunkSize); var k := b / chunkSize;
      k < |r| && r[k].start <= b < r[k].stop
  {
    var k := b / chunkSize;
    DivBounds(b, chunkSize);
    ChunkStartsInside(size, chunkSize, k);
    MulSucc(k, chunkSize);
  }

  // ---------------------------------------------------------------------------
  // The pending filter and the upload flags

  /** `chunks.filter(c => !c.uploaded)`. */
  function Pending(chunks: seq<Chunk>): (r: seq<Chunk>)
    ensures |r| <= |chunks|
  {
    if |chunks| == 0 then []
    else (if chunks[0].uploaded then [] else [chunks[0]]) + Pending(chunks[1..])
  }

  /** A chunk is pending exactly when it is in the list and not uploaded. */
  lemma {:induction false} PendingMembers(chunks: seq<Chunk>, c: Chunk)
    ensures c in Pending(chunks) <==> c in chunks && !c.uploaded
  {
    if |chunks| > 0 {
      PendingMembers(chunks[1..], c);
      assert chunks == [chunks[0]] + chunks[1..];
    }
  }

  /** Chunk indices that increase along the list. */
  predicate IncreasingIndices(chunks: seq<Chunk>) {
    forall i, j :: 0 <= i < j < |chunks| ==> chunks[i].index < chunks[j].index
  }

  /** Every chunk sits in the list slot its index names, as createFileChunks numbers them. */
  predicate SlotIndexed(chunks: seq<Chunk>) {
    forall i :: 0 <= i < |chunks| ==> chunks[i].index == i
  }

  /** A list whose chunks sit in their own slots is in index order. */
  lemma SlotIndexedIncreasing(chunks: seq<Chunk>)
    requires SlotIndexed(chunks)
    ensures IncreasingIndices(chunks)
  {
  }

  /** The list of a fresh upload has each chunk in its own slot. */
  lemma PlanSlotIndexed(size: nat, chunkSize: nat)
    requires chunkSize > 0
    ensures SlotIndexed(ChunkPlan(size, chunkSize))
  {
    ChunkPlanTiles(size, chunkSize);
  }

  /** Setting an upload flag keeps every chunk in its slot. */
  lemma MarkKeepsSlots(chunks: seq<Chunk>, k: nat)
    requires k < |chunks| && SlotIndexed(chunks)
    ensures SlotIndexed(MarkUploaded(chunks, k))
  {
  }

  /** A list in index order leaves a pending list in index order. */
  lemma {:induction false} PendingInOrder(chunks: seq<Chunk>)
    requires IncreasingIndices(chunks)
    ensures IncreasingIndices(Pending(chunks))
  {
    if |chunks| > 0 {
      var rest := chunks[1..];
      IncreasingTail(chunks);
      PendingInOrder(rest);
      PendingAfterHead(chunks);
      if !chunks[0].uploaded {
        IncreasingCons(chunks[0], Pending(rest));
      }
    }
  }

  lemma IncreasingTail(chunks: seq<Chunk>)
    requires |chunks| > 0 && IncreasingIndices(chunks)
    ensures IncreasingIndices(chunks[1..])
  {
    var rest := chunks[1..];
    forall i, j | 0 <= i < j < |rest| ensures rest[i].index < rest[j].index {
      assert rest[i] == chunks[i + 1] && rest[j] == chunks[j + 1];
    }
  }

  /** Every chunk pending behind the head has a larger index than the head. */
  lemma PendingAfterHead(chunks: seq<Chunk>)
    requires |chunks| > 0 && IncreasingIndices(chunks)
    ensures forall c :: c in Pending(chunks[1..]) ==> chunks[0].index < c.index
  {
    var rest := chunks[1..];
    forall c | c in Pending(rest) ensures chunks[0].index < c.index {
      PendingMembers(rest, c);
      var j :| 0 <= j < |rest| && rest[j] == c;
      assert chunks[j + 1] == c;
    }
  }

  lemma IncreasingCons(c: Chunk, p: seq<Chunk>)
    requires IncreasingIndices(p) && forall x :: x in p ==> c.index < x.index
    ensures IncreasingIndices([c] + p)
  {
    var r := [c] + p;
    forall i, j | 0 <= i < j < |r| ensures r[i].index < r[j].index {
      assert r[j] == p[j - 1];
      if i > 0 {
        assert r[i] == p[i - 1];
      }
    }
  }

  /** How many chunks are uploaded: `chunks.filter(c => c.uploaded).length`. */
  function UploadedCount(chunks: seq<Chunk>): (n: nat)
    ensures n + |Pending(chunks)| == |chunks|
  {
    if |chunks| == 0 then 0
    else (if chunks[0].uploaded then 1 else 0) + UploadedCount(chunks[1..])
  }

  /** The list after the completion handler for chunk k: a copy with only k's flag set. */
  function MarkUploaded(chunks: seq<Chunk>, k: nat): (r: seq<Chunk>)
    requires k < |chunks|
    ensures |r| == |chunks|
    ensures r[k].uploaded
    ensures r[k].(uploaded := false) == chunks[k].(uploaded := false)
    ensures forall i :: 0 <= i < |chunks| && i != k ==> r[i] == chunks[i]
  {
    chunks[k := chunks[k].(uploaded := true)]
  }

  /** Marking a pending chunk counts one more upload; marking an uploaded one changes nothing. */
  lemma {:induction false} MarkCounts(chunks: seq<Chunk>, k: nat)
    requires k < |chunks|
    ensures chunks[k].uploaded ==> MarkUploaded(chunks, k) == chunks
    ensures !chunks[k].uploaded ==> UploadedCount(MarkUploaded(chunks, k)) == UploadedCount(chunks) + 1
  {
    if chunks[k].uploaded {
      assert MarkUploaded(chunks, k) == chunks;
    } else if k == 0 {
      assert MarkUploaded(chunks, k)[1..] == chunks[1..];
    } else {
      assert MarkUploaded(chunks, k)[1..] == MarkUploaded(chunks[1..], k - 1);
      MarkCounts(chunks[1..], k - 1);
    }
  }

  // ---------------------------------------------------------------------------
  // Progress

  /** Math.ceil(uploaded / total * 100), in exact arithmetic: the least p with p * total >= 100 * uploaded. */
  function CeilPercent(uploaded: nat, total: nat): (p: nat)
    requires 0 < total && uploaded <= total
    ensures p * total >= 100 * uploaded
    ensures p > 0 ==> (p - 1) * total < 100 * uploaded
    ensures p <= 100
    ensures p == 0 <==> uploaded == 0
    ensures uploaded == total ==> p == 100
  {
    CeilDivLeast(100 * uploaded, total, 0);
    CeilDivLeast(100 * uploaded, total, 99);
    CeilDivLeast(100 * uploaded, total, 100);
    CeilDiv(100 * uploaded, total)
  }

  /** Progress never goes backwards as more chunks complete. */
  lemma CeilPercentMonotone(u1: nat, u2: nat, total: nat)
    requires 0 < total && u1 <= u2 <= total
    ensures CeilPercent(u1, total) <= CeilPercent(u2, total)
  {
    CeilDivLeast(100 * u1, total, CeilPercent(u2, total));
  }

  // ---------------------------------------------------------------------------
  // File type

  datatype FileKind = Image | Video | Other

  predicate StartsWith(s: string, p: string) {
    |p| <= |s| && s[..|p|] == p
  }

  /** The preview kind, by MIME-type prefix. */
  function Classify(mimeType: string): (k: FileKind)
    ensures k == Image <==> StartsWith(mimeType, "image/")
    ensures k == Video <==> StartsWith(mimeType, "video/")
    ensures k == Other <==> !StartsWith(mimeType, "image/") && !StartsWith(mimeType, "video/")
  {
    if StartsWith(mimeType, "image/") then Image
    else if StartsWith(mimeType, "video/") then Video
    else Other
  }

  // ---------------------------------------------------------------------------
  // The component's state

  class Uploader {
    var file: Option<File>
    /** Whether an object URL for a preview is held (images and videos). */
    var hasPreview: bool
    var fileType: FileKind
    var chunks: seq<Chunk>
    var progress: nat
    var isUploading: bool
    var isPaused: bool
    /** abortRef: set by a pause, read by the upload loop. */
    var aborted: bool

    /**
     * In the states the modelled handlers reach, the chunk list keeps the numbering
     * createFileChunks gives it, so `newChunks[chunk.index]` in the completion handler is
     * the chunk's own slot. A completion that arrives after a reset is not one of them.
     */
    predicate Valid()
      reads this
    {
      SlotIndexed(chunks)
    }

    /** The state right after a reset. */
    predicate Cleared()
      reads this
    {
      && file == None && !hasPreview && fileType == Other && chunks == []
      && progress == 0 && !isUploading && !isPaused
    }

    constructor()
      ensures Valid() && Cleared() && !aborted
    {
      file := None;
      hasPreview := false;
      fileType := Other;
      chunks := [];
      progress := 0;
      isUploading := false;
      isPaused := false;
      aborted := false;
    }

    /** resetState: no file, no preview, no chunks, no progress, idle. */
    method ResetState()
      modifies this
      ensures Valid() && Cleared()
      ensures aborted == old(aborted)
    {
      file := None;
      hasPreview := false;
      fileType := Other;
      chunks := [];
      progress := 0;
      isUploading := false;
      isPaused := false;
    }

    /**
     * handleFileChange: with no file chosen nothing happens; otherwise start over with the
     * new file, classified by its MIME type, with a preview for images and videos.
     */
    method HandleFileChange(selected: Option<File>)
      requires Valid()
      modifies this
      ensures Valid()
      ensures selected == None ==>
        && file == old(file) && hasPreview == old(hasPreview) && fileType == old(fileType)
        && chunks == old(chunks) && progress == old(progress)
        && isUploading == old(isUploading) && isPaused == old(isPaused)
      ensures selected.Some? ==>
        && file == selected && fileType == Classify(selected.value.mimeType)
        && hasPreview == (fileType != Other)
        && chunks == [] && progress == 0 && !isUploading && !isPaused
      ensures aborted == old(aborted)
    {
      if selected == None {
        return;
      }
      ResetState();
      file := selected;
      var kind := Classify(selected.value.mimeType);
      if kind == Image {
        fileType := Image;
        hasPreview := true;
      } else if kind == Video {
        fileType := Video;
        hasPreview := true;
      } else {
        fileType := Other;
      }
    }

    /**
     * The synchronous part of handleUpload: with no file nothing happens; otherwise mark
     * the upload running, cut the file into chunks if it has none yet (a resume keeps the
     * flags it has), and hand back the chunks still to send, in order.
     */
    method HandleUpload() returns (pending: seq<Chunk>)
      requires Valid()
      modifies this
      ensures Valid()
      ensures IncreasingIndices(pending)
      ensures old(file) == None ==>
        pending == [] && chunks == old(chunks) && isUploading == old(isUploading)
        && isPaused == old(isPaused) && aborted == old(aborted)
      ensures old(file).Some? ==> isUploading && !isPaused && !aborted
      ensures old(file).Some? && old(chunks) == [] ==>
        chunks == ChunkPlan(old(file).value.size, ChunkSize)
      ensures old(file).Some? && old(chunks) != [] ==> chunks == old(chunks)
      ensures old(file).Some? ==> pending == Pending(chunks)
      ensures file == old(file) && progress == old(progress) && fileType == old(fileType)
      ensures hasPreview == old(hasPreview)
    {
      pending := [];
      if file == None {
        return;
      }
      isUploading := true;
      isPaused := false;
      aborted := false;
      var currentChunks := chunks;
      if |currentChunks| == 0 {
        currentChunks := CreateFileChunks(file.value.size, ChunkSize);
        PlanSlotIndexed(file.value.size, ChunkSize);
        chunks := currentChunks;
      }
      SlotIndexedIncreasing(currentChunks);
      PendingInOrder(currentChunks);
      pending := Pending(currentChunks);
    }

    /** The state update after chunk k's request completes: only that flag is set. */
    method MarkChunkUploaded(k: nat)
      requires Valid() && k < |chunks|
      modifies this
      ensures Valid()
      ensures chunks == MarkUploaded(old(chunks), k)
      ensures file == old(file) && progress == old(progress) && fileType == old(fileType)
      ensures hasPreview == old(hasPreview) && isUploading == old(isUploading)
      ensures isPaused == old(isPaused) && aborted == old(aborted)
    {
      var newChunks := chunks;
      newChunks := newChunks[k := newChunks[k].(uploaded := true)];
      MarkKeepsSlots(chunks, k);
      chunks := newChunks;
    }

    /** The progress effect: skipped without chunks, otherwise the ceiling percentage. */
    method SyncProgress()
      requires Valid()
      modifies this
      ensures Valid()
      ensures chunks == [] ==> progress == old(progress)
      ensures chunks != [] ==> progress == CeilPercent(UploadedCount(chunks), |chunks|)
      ensures chunks == old(chunks) && file == old(file) && fileType == old(fileType)
      ensures hasPreview == old(hasPreview) && isUploading == old(isUploading)
      ensures isPaused == old(isPaused) && aborted == old(aborted)
    {
      if |chunks| == 0 {
        return;
      }
      var uploadedCount := UploadedCount(chunks);
      progress := CeilPercent(uploadedCount, |chunks|);
    }
  }
}
