/**
 * Full resync of the operation log in chunks (core/op_log.py:402-472, 523-532,
 * core/cluster_runtime.py:1241-1276).  Base64 is left out: a chunk is its bytes, and
 * the empty text stands for no bytes.  SHA-256 is a function that is passed in.
 */
module Resync {
  import opened Sequences
  import opened Wrappers

  newtype Byte = x: int | 0 <= x < 256
  type Bytes = seq<Byte>
  type Digest = Bytes -> string

  const DEFAULT_CHUNK := 256 * 1024
  const CACHE_SECONDS := 5

  function ChunkSize(asked: int): nat { if asked <= 0 then DEFAULT_CHUNK else asked }

  /** Slices of `size` bytes, the last one possibly shorter. */
  function Sliced(raw: Bytes, size: nat): (chunks: seq<Bytes>)
    requires size > 0
    decreases |raw|
  {
    if raw == [] then []
    else
      var k := Min(size, |raw|);
      [raw[..k]] + Sliced(raw[k..], size)
  }

  /** `snapshot_chunks`. */
  function Chunks(raw: Bytes, asked: int): seq<Bytes> { Sliced(raw, ChunkSize(asked)) }

  lemma {:induction false} SlicesJoin(raw: Bytes, size: nat)
    requires size > 0
    ensures Concat(Sliced(raw, size)) == raw
    decreases |raw|
  {
    if raw != [] {
      var k := Min(size, |raw|);
      SlicesJoin(raw[k..], size);
      assert raw == raw[..k] + raw[k..];
      assert Sliced(raw, size)[1..] == Sliced(raw[k..], size);
    }
  }

  /** The chunks put together are the snapshot, for every size. */
  lemma ChunksJoin(raw: Bytes, asked: int)
    ensures Concat(Chunks(raw, asked)) == raw
  {
    SlicesJoin(raw, ChunkSize(asked));
  }

  /** No chunk is empty or too large, and all but the last have the full size. */
  ghost predicate Full(chunks: seq<Bytes>, size: nat) {
    && (forall i :: 0 <= i < |chunks| ==> 0 < |chunks[i]| <= size)
    && (forall i :: 0 <= i < |chunks| - 1 ==> |chunks[i]| == size)
  }

  lemma {:induction false} SlicesAreFull(raw: Bytes, size: nat)
    requires size > 0
    ensures Full(Sliced(raw, size), size)
    decreases |raw|
  {
    if raw != [] {
      var k := Min(size, |raw|);
      SlicesAreFull(raw[k..], size);
    }
  }

  /** No chunk is empty, all but the last have the full size, and only the empty snapshot has none. */
  lemma ChunksAreFull(raw: Bytes, asked: int)
    ensures Full(Chunks(raw, asked), if asked > 0 then asked else 262144) && (Chunks(raw, asked) == [] <==> raw == [])
  {
    SlicesAreFull(raw, ChunkSize(asked));
  }

  /** `snapshot_chunks`, as its loop. */
  method SnapshotChunks(raw: Bytes, asked: int) returns (chunks: seq<Bytes>)
    ensures chunks == Chunks(raw, asked) && Concat(chunks) == raw
  {
    var size := ChunkSize(asked);
    chunks := [];
    var start := 0;
    assert raw[0..] == raw;
    while start < |raw|
      invariant 0 <= start
      invariant chunks + Sliced(raw[Min(start, |raw|)..], size) == Sliced(raw, size)
      decreases |raw| + size - start
    {
      var end := Min(start + size, |raw|);
      assert raw[start..][..end - start] == raw[start..end] && raw[start..][end - start..] == raw[end..];
      chunks := chunks + [raw[start..end]];
      start := start + size;
    }
    ChunksJoin(raw, asked);
  }

  // ---------------------------------------------------------------------- download

  /** A response to a chunk request; `chunk` is None when it is no text. */
  datatype Response = Response(mode: string, chunk: Option<Bytes>)

  predicate Usable(r: Option<Response>) {
    r.Some? && r.value.mode == "chunk" && r.value.chunk.Some? && r.value.chunk.value != []
  }

  predicate Carries(r: Option<Response>, chunk: Bytes) { r.Some? && r.value.chunk == Some(chunk) }

  /** The chunks of the first k responses; None if one of them is not usable. */
  function Collected(rs: seq<Option<Response>>, k: nat): Option<Bytes>
    requires k <= |rs|
  {
    if k == 0 then Some([])
    else match Collected(rs, k - 1)
      case None => None
      case Some(buffer) => if Usable(rs[k - 1]) then Some(buffer + rs[k - 1].value.chunk.value) else None
  }

  /** What `_download_and_apply_snapshot_chunks` installs, if anything. */
  function Installed(rs: seq<Option<Response>>, expected: string, digest: Digest): Option<Bytes> {
    if rs == [] then None
    else match Collected(rs, |rs|)
      case None => None
      case Some(buffer) => if expected != "" && digest(buffer) != expected then None else Some(buffer)
  }

  lemma {:induction false} CollectedStops(rs: seq<Option<Response>>, j: nat, k: nat)
    requires j <= k <= |rs| && Collected(rs, j) == None
    ensures Collected(rs, k) == None
  {
    if j < k {
      CollectedStops(rs, j, k - 1);
    }
  }

  /** The download in batches: whatever the batch size, the chunks are put together in order. */
  method Download(rs: seq<Option<Response>>, batch: nat, expected: string, digest: Digest) returns (r: Option<Bytes>)
    requires batch > 0
    ensures r == Installed(rs, expected, digest)
  {
    if |rs| == 0 {
      return None;
    }
    var buffer: Bytes := [];
    var start := 0;
    while start < |rs|
      invariant 0 <= start && Collected(rs, Min(start, |rs|)) == Some(buffer)
      decreases |rs| - start
    {
      var stop := Min(start + batch, |rs|);
      var i := start;
      while i < stop
        invariant start <= i <= stop && Collected(rs, i) == Some(buffer)
      {
        if !Usable(rs[i]) {
          CollectedStops(rs, i + 1, |rs|);
          return None;
        }
        buffer := buffer + rs[i].value.chunk.value;
        i := i + 1;
      }
      start := start + batch;
    }
    if expected != "" && digest(buffer) != expected {
      return None;
    }
    r := Some(buffer);
  }

  function Answers(chunks: seq<Bytes>): seq<Option<Response>> {
    seq(|chunks|, i requires 0 <= i < |chunks| => Some(Response("chunk", Some(chunks[i]))))
  }

  /** What the usable responses make up, when response i carries chunk i. */
  lemma {:induction false} CollectedIs(rs: seq<Option<Response>>, chunks: seq<Bytes>, k: nat)
    requires |rs| == |chunks| && k <= |rs|
    requires forall i :: 0 <= i < |rs| && Usable(rs[i]) ==> Carries(rs[i], chunks[i])
    ensures Collected(rs, k) ==
            if forall i :: 0 <= i < k ==> Usable(rs[i]) then Some(Concat(chunks[..k])) else None
  {
    if k > 0 {
      CollectedIs(rs, chunks, k - 1);
      ConcatAt(chunks, k - 1);
    }
  }

  /**
   * A download installs bytes if and only if every answer came and was a non-empty
   * chunk, and the chunks in order are those bytes, with the digest asked for, if any.
   */
  lemma InstalledIff(rs: seq<Option<Response>>, expected: string, digest: Digest, bytes: Bytes)
    ensures Installed(rs, expected, digest) == Some(bytes) <==>
            && rs != []
            && (forall i :: 0 <= i < |rs| ==> rs[i].Some? && rs[i].value.mode == "chunk" && rs[i].value.chunk.Some?
                                              && rs[i].value.chunk.value != [])
            && bytes == Concat(seq(|rs|, i requires 0 <= i < |rs| =>
                                 if rs[i].Some? && rs[i].value.chunk.Some? then rs[i].value.chunk.value else []))
            && (expected == "" || digest(bytes) == expected)
  {
    var chunks := seq(|rs|, i requires 0 <= i < |rs| =>
                    if rs[i].Some? && rs[i].value.chunk.Some? then rs[i].value.chunk.value else []);
    CollectedIs(rs, chunks, |rs|);
    assert chunks[..|rs|] == chunks;
    hide Collected, Concat;
  }

  /** For every non-empty snapshot and chunk size, the download installs the leader's bytes. */
  lemma DownloadRebuilds(raw: Bytes, asked: int, digest: Digest)
    requires raw != []
    ensures Installed(Answers(Chunks(raw, asked)), digest(raw), digest) == Some(raw)
  {
    var chunks := Chunks(raw, asked);
    ChunksAreFull(raw, asked);
    ChunksJoin(raw, asked);
    CollectedIs(Answers(chunks), chunks, |chunks|);
    assert chunks[..|chunks|] == chunks;
  }

  ghost predicate CollisionFree(digest: Digest) {
    && (forall a: Bytes, b: Bytes :: digest(a) == digest(b) ==> a == b)
    && (forall a: Bytes :: digest(a) != "")
  }

  /** Whatever is answered, nothing but the bytes the manifest described is ever installed. */
  lemma NothingElseInstalled(rs: seq<Option<Response>>, raw: Bytes, digest: Digest)
    requires CollisionFree(digest)
    ensures Installed(rs, digest(raw), digest) in {None, Some(raw)}
  {
  }

  // ------------------------------------------------------------------------ leader

  /** `_resync_snapshot_cache`. */
  datatype Cache = Cache(ts: int, chunks: seq<Bytes>, sha256: string)

  /** A request as the leader sees it: the time, and the snapshot its log would give then. */
  datatype Request = Request(now: int, snapshot: Bytes)

  function Refreshed(cache: Option<Cache>, q: Request, digest: Digest): Cache {
    if cache.None? || q.now - cache.value.ts > CACHE_SECONDS
    then Cache(q.now, Chunks(q.snapshot, DEFAULT_CHUNK), digest(q.snapshot))
    else cache.value
  }

  function ChunkReply(cache: Cache, idx: int): Response {
    Response("chunk", Some(if idx < 0 || idx >= |cache.chunks| then [] else cache.chunks[idx]))
  }

  class Leader {
    var cache: Option<Cache>

    constructor ()
      ensures cache == None
    {
      cache := None;
    }

    method Refresh(q: Request, digest: Digest)
      modifies this
      ensures cache == Some(Refreshed(old(cache), q, digest))
    {
      if cache.None? || q.now - cache.value.ts > CACHE_SECONDS {
        var chunks := SnapshotChunks(q.snapshot, DEFAULT_CHUNK);
        cache := Some(Cache(q.now, chunks, digest(q.snapshot)));
      }
    }

    /** `_handle_oplog_full_resync`, mode "manifest". */
    method Manifest(q: Request, digest: Digest) returns (count: nat, sha256: string)
      modifies this
      ensures cache == Some(Refreshed(old(cache), q, digest))
      ensures count == |cache.value.chunks| && sha256 == cache.value.sha256
    {
      Refresh(q, digest);
      return |cache.value.chunks|, cache.value.sha256;
    }

    /** `_handle_oplog_full_resync`, mode "chunk". */
    method Chunk(q: Request, idx: int, digest: Digest) returns (r: Response)
      modifies this
      ensures cache == Some(Refreshed(old(cache), q, digest)) && r == ChunkReply(cache.value, idx)
    {
      Refresh(q, digest);
      if idx < 0 || idx >= |cache.value.chunks| {
        return Response("chunk", Some([]));
      }
      return Response("chunk", Some(cache.value.chunks[idx]));
    }
  }

  /** The cache after the first k chunk requests. */
  function CacheAfter(cache: Cache, qs: seq<Request>, k: nat, digest: Digest): Cache
    requires k <= |qs|
  {
    if k == 0 then cache else Refreshed(Some(CacheAfter(cache, qs, k - 1, digest)), qs[k - 1], digest)
  }

  /** The leader's replies to requests for chunk 0, 1, ..., some of which may be lost. */
  function Replies(cache: Cache, qs: seq<Request>, lost: set<nat>, digest: Digest): (rs: seq<Option<Response>>)
    ensures |rs| == |qs|
  {
    seq(|qs|, i requires 0 <= i < |qs| =>
      if i in lost then None else Some(ChunkReply(CacheAfter(cache, qs, i + 1, digest), i)))
  }

  /** The cache describes `raw`. */
  ghost predicate Describes(cache: Cache, raw: Bytes, digest: Digest) {
    cache.chunks == Chunks(raw, DEFAULT_CHUNK) && cache.sha256 == digest(raw)
  }

  /**
   * What the leader answers from: without a cache, or with one older than five seconds,
   * the log as it is now; otherwise the cache as it was.
   */
  lemma AnswersFromCurrentLog(cache: Option<Cache>, q: Request, digest: Digest)
    ensures var c := Refreshed(cache, q, digest);
            if cache.Some? && q.now <= cache.value.ts + 5 then c == cache.value
            else Describes(c, q.snapshot, digest) && c.ts == q.now
    ensures forall raw :: Chunks(raw, DEFAULT_CHUNK) == Sliced(raw, 262144)
  {
  }

  /** The answer to a request for a chunk is that chunk of the cache, and empty beyond its end. */
  lemma ChunkReplyIs(cache: Cache, idx: int)
    ensures ChunkReply(cache, idx).mode == "chunk" && ChunkReply(cache, idx).chunk.Some?
    ensures 0 <= idx < |cache.chunks| ==> ChunkReply(cache, idx).chunk.value == cache.chunks[idx]
    ensures !(0 <= idx < |cache.chunks|) ==> ChunkReply(cache, idx).chunk.value == []
  {
  }

  lemma {:induction false} QuietCache(cache: Cache, qs: seq<Request>, k: nat, digest: Digest)
    requires k <= |qs| && forall i :: 0 <= i < |qs| ==> qs[i].now - cache.ts <= CACHE_SECONDS
    ensures CacheAfter(cache, qs, k, digest) == cache
  {
    if k > 0 {
      QuietCache(cache, qs, k - 1, digest);
    }
  }

  /** While the cache is fresh and no answer is lost, the download succeeds, whatever happens to the log. */
  lemma FreshCacheSucceeds(cache: Cache, raw: Bytes, qs: seq<Request>, digest: Digest)
    requires Describes(cache, raw, digest) && raw != [] && |qs| == |cache.chunks|
    requires forall i :: 0 <= i < |qs| ==> qs[i].now - cache.ts <= CACHE_SECONDS
    ensures Installed(Replies(cache, qs, {}, digest), cache.sha256, digest) == Some(raw)
  {
    forall i: nat | i <= |qs|
      ensures CacheAfter(cache, qs, i, digest) == cache
    {
      QuietCache(cache, qs, i, digest);
    }
    assert Replies(cache, qs, {}, digest) == Answers(cache.chunks);
    DownloadRebuilds(raw, DEFAULT_CHUNK, digest);
  }

  // ------------------------------------------------------- a cache rebuilt midway

  /** The chunk sent for request i: of the cache as it is then. */
  function Served(cache: Cache, qs: seq<Request>, i: nat, digest: Digest): Bytes
    requires i < |qs|
  {
    ChunkReply(CacheAfter(cache, qs, i + 1, digest), i).chunk.value
  }

  function AllServed(cache: Cache, qs: seq<Request>, digest: Digest): (chunks: seq<Bytes>)
    ensures |chunks| == |qs| && forall i :: 0 <= i < |qs| ==> chunks[i] == Served(cache, qs, i, digest)
  {
    hide Served;
    seq(|qs|, i requires 0 <= i < |qs| => Served(cache, qs, i, digest))
  }

  lemma ReplyIs(cache: Cache, qs: seq<Request>, lost: set<nat>, i: nat, digest: Digest)
    requires i < |qs|
    ensures var r := Replies(cache, qs, lost, digest)[i];
            && (Usable(r) <==> i !in lost && Served(cache, qs, i, digest) != [])
            && (Usable(r) ==> Carries(r, Served(cache, qs, i, digest)))
  {
    hide CacheAfter;
  }

  lemma {:induction false} LongerHasMoreChunks(a: Bytes, b: Bytes, size: nat)
    requires size > 0 && |a| <= |b|
    ensures |Sliced(a, size)| <= |Sliced(b, size)|
    decreases |a|
  {
    if a != [] {
      LongerHasMoreChunks(a[Min(size, |a|)..], b[Min(size, |b|)..], size);
    }
  }

  /** Every cache of the run has at least n chunks, and those before its last are of full size. */
  lemma {:induction false} CachesStayLong(cache: Cache, qs: seq<Request>, k: nat, raw: Bytes, digest: Digest)
    requires k <= |qs| && cache.chunks == Chunks(raw, DEFAULT_CHUNK)
    requires forall q :: q in qs ==> |q.snapshot| >= |raw|
    ensures var c := CacheAfter(cache, qs, k, digest).chunks;
            |c| >= |cache.chunks| && Full(c, DEFAULT_CHUNK)
  {
    hide Full, Sliced;
    if k == 0 {
      ChunksAreFull(raw, DEFAULT_CHUNK);
    } else {
      CachesStayLong(cache, qs, k - 1, raw, digest);
      var q := qs[k - 1];
      assert q in qs;
      ChunksAreFull(q.snapshot, DEFAULT_CHUNK);
      LongerHasMoreChunks(raw, q.snapshot, DEFAULT_CHUNK);
    }
  }

  /** Equally many parts that are equally long up to the last, and the same text: the same parts. */
  lemma {:induction false} SameParts(a: seq<Bytes>, b: seq<Bytes>)
    requires |a| == |b| && Concat(a) == Concat(b)
    requires forall i :: 0 <= i < |a| - 1 ==> |a[i]| == |b[i]|
    ensures a == b
  {
    if |a| == 1 {
      assert a[0] + [] == a[0] && b[0] + [] == b[0];
      assert a[1..] == [] && b[1..] == [];
    } else if |a| > 1 {
      assert a[0] == Concat(a)[..|a[0]|] && b[0] == Concat(b)[..|b[0]|];
      assert Concat(a[1..]) == Concat(a)[|a[0]|..] && Concat(b[1..]) == Concat(b)[|b[0]|..];
      SameParts(a[1..], b[1..]);
      assert a == [a[0]] + a[1..] && b == [b[0]] + b[1..];
    }
  }

  /**
   * A download against a leader whose log changes and whose cache may be rebuilt
   * midway succeeds if and only if no answer is lost and the chunks sent make up the
   * bytes of the manifest; while the snapshot does not shrink, if and only if each of
   * them is the manifest's own.
   */
  lemma RebuiltCacheSucceedsIff(cache: Cache, raw: Bytes, qs: seq<Request>, lost: set<nat>, digest: Digest)
    requires CollisionFree(digest) && Describes(cache, raw, digest) && raw != [] && |qs| == |cache.chunks|
    ensures var r := Installed(Replies(cache, qs, lost, digest), cache.sha256, digest);
            && r in {None, Some(raw)}
            && (r == Some(raw) <==>
                  && (forall i: nat :: i < |qs| ==> i !in lost && Served(cache, qs, i, digest) != [])
                  && Concat(AllServed(cache, qs, digest)) == raw)
            && ((forall q :: q in qs ==> |q.snapshot| >= |raw|) ==>
                  (r == Some(raw) <==>
                     forall i: nat :: i < |qs| ==> i !in lost && Served(cache, qs, i, digest) == cache.chunks[i]))
  {
    hide Replies, Collected, Served, Usable, Concat, Chunks;
    var sent := AllServed(cache, qs, digest);
    ChunksAreFull(raw, DEFAULT_CHUNK);
    ChunksJoin(raw, DEFAULT_CHUNK);
    var rs := Replies(cache, qs, lost, digest);
    NothingElseInstalled(rs, raw, digest);
    forall i: nat | i < |qs|
      ensures Usable(rs[i]) <==> i !in lost && sent[i] != []
      ensures Usable(rs[i]) ==> Carries(rs[i], sent[i])
    {
      ReplyIs(cache, qs, lost, i, digest);
    }
    CollectedIs(rs, sent, |qs|);
    assert sent[..|qs|] == sent;
    if forall q :: q in qs ==> |q.snapshot| >= |raw| {
      if Concat(sent) == raw {
        SentAreFull(cache, raw, qs, digest);
        SameParts(sent, cache.chunks);
      }
      if forall i: nat :: i < |qs| ==> Served(cache, qs, i, digest) == cache.chunks[i] {
        assert sent == cache.chunks;
      }
    }
  }

  lemma SentAreFull(cache: Cache, raw: Bytes, qs: seq<Request>, digest: Digest)
    requires cache.chunks == Chunks(raw, DEFAULT_CHUNK) && |qs| == |cache.chunks|
    requires forall q :: q in qs ==> |q.snapshot| >= |raw|
    ensures forall i :: 0 <= i < |qs| - 1 ==> |Served(cache, qs, i, digest)| == DEFAULT_CHUNK
  {
    forall i | 0 <= i < |qs| - 1
      ensures |Served(cache, qs, i, digest)| == DEFAULT_CHUNK
    {
      CachesStayLong(cache, qs, i + 1, raw, digest);
    }
  }
}
