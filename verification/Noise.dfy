/** Frames behind bytes that belong to none: the framer takes too little, too much, or the same frame again. */
module Noise {
  import opened Wire
  import opened Framing
  import opened Limits

  predicate MarkerFree(z: seq<Byte>) {
    forall i :: 0 <= i < |z| ==> z[i] != MSG_BEGIN
  }

  /** The first marker behind marker-free bytes. */
  lemma MarkerBehind(z: seq<Byte>, w: seq<Byte>)
    requires MarkerFree(z)
    ensures MarkerAt(w, 0) ==> MarkerFrom(z + w, 0) == |z|
  {
    if MarkerAt(w, 0) {
      assert MarkerAt(z + w, |z|);
    }
  }

  // ---- One window ----

  /**
   * Marker-free bytes and part of a frame: the frame is taken as soon as the window shows its tag and
   * is as long as the frame, and the copy holds the part of the frame that has been received.
   */
  lemma NoisyLook(z: seq<Byte>, f: Frame, m: nat)
    requires MarkerFree(z) && m <= |f|
    ensures var w := z + f[..m];
            && LookAt(w) == (if m >= 3 && |f| <= |w| then Take(|z|, |f|) else Wait)
            && Copied(w, |z|, |f|) == f[..m]
  {
    var w := z + f[..m];
    if m >= 3 {
      assert MarkerAt(f[..m], 0);
      MarkerBehind(z, f[..m]);
      assert w[|z| + 2] == f[2];
    } else {
      assert forall i: nat :: i + 2 < |w| ==> w[i] == z[i];
    }
    assert w[|z|..] == f[..m];
  }

  /** The postings that a frame behind `z` marker-free bytes gives rise to. */
  function Repeats(z: nat, f: Frame): seq<Posting>
    decreases z
  {
    [Posting(z, |f|, f)] + if z < |f| then [] else Repeats(z - |f|, f)
  }

  lemma ModuloLess(z: nat, f: Frame)
    requires |f| <= z
    ensures z % |f| == (z - |f|) % |f| && z / |f| == (z - |f|) / |f| + 1
  {
    if |f| == 3 {
      assert z % 3 == (z - 3) % 3 && z / 3 == (z - 3) / 3 + 1;
    } else if |f| == 6 {
      assert z % 6 == (z - 6) % 6 && z / 6 == (z - 6) / 6 + 1;
    } else if |f| == 15 {
      assert z % 15 == (z - 15) % 15 && z / 15 == (z - 15) / 15 + 1;
    } else {
      assert z % 18 == (z - 18) % 18 && z / 18 == (z - 18) / 18 + 1;
    }
  }

  /** They are copies of the whole frame, one more than it fits into the noise; so one exactly when it does not fit. */
  lemma {:induction false} RepeatsCount(z: nat, f: Frame)
    ensures |Repeats(z, f)| == z / |f| + 1
    ensures forall p :: p in Repeats(z, f) ==> p.length == |f| && p.data == f
    ensures |Repeats(z, f)| == 1 <==> z < |f|
    decreases z
  {
    if z >= |f| {
      RepeatsCount(z - |f|, f);
      ModuloLess(z, f);
    }
  }

  /** A scan that posts `f` behind `z` bytes and goes on to scan to `s`. */
  function Once(z: nat, f: Frame, s: Scanned): Scanned {
    Scanned([Posting(z, |f|, f)] + s.posts, |f| + s.used, s.dropped)
  }

  /** A scan that posts `f` behind `z` bytes as often as it does and goes on to scan to `s`. */
  function Repeatedly(z: nat, f: Frame, s: Scanned): Scanned {
    Scanned(Repeats(z, f) + s.posts, z + |f| - z % |f| + s.used, s.dropped)
  }

  lemma RepeatedlyOnce(z: nat, f: Frame, s: Scanned)
    ensures z < |f| ==> Repeatedly(z, f, s) == Once(z, f, s)
    ensures z >= |f| ==> Repeatedly(z, f, s) == Once(z, f, Repeatedly(z - |f|, f, s))
    ensures z >= |f| ==> z % |f| == (z - |f|) % |f|
  {
    if z >= |f| {
      ModuloLess(z, f);
      assert [Posting(z, |f|, f)] + (Repeats(z - |f|, f) + s.posts) == Repeats(z, f) + s.posts;
    }
  }

  lemma TakeBehindNoise(z: seq<Byte>, f: Frame, more: seq<Byte>)
    requires MarkerFree(z)
    ensures Scan(z + f + more) == Once(|z|, f, Scan((z + f + more)[|f|..]))
  {
    var w := z + f + more;
    assert w == z + (f + more);
    assert MarkerAt(f + more, 0);
    MarkerBehind(z, f + more);
    assert w[|z| + 2] == f[2];
    assert w[|z|..][..|f|] == f;
    assert LookAt(w) == Take(|z|, |f|) && Copied(w, |z|, |f|) == f;
  }

  lemma BehindTheFirst(z: seq<Byte>, f: Frame, more: seq<Byte>)
    ensures |z| < |f| ==> (z + f + more)[|f|..] == f[|f| - |z|..] + more
    ensures |z| >= |f| ==> (z + f + more)[|f|..] == z[|f|..] + f + more
  {
  }

  lemma AfterTheFirst(z: seq<Byte>, f: Frame, more: seq<Byte>)
    requires MarkerFree(z)
    ensures |z| < |f| ==> Scan(z + f + more) == Once(|z|, f, Scan(f[|f| - |z|..] + more))
    ensures |z| >= |f| ==> Scan(z + f + more) == Once(|z|, f, Scan(z[|f|..] + f + more))
  {
    TakeBehindNoise(z, f, more);
    BehindTheFirst(z, f, more);
  }

  /**
   * A frame behind marker-free bytes, with anything after it: it is posted once and again for every
   * time it fits into the noise; then the scan goes on inside the frame, as many bytes before its end
   * as are left of the noise.
   */
  lemma {:induction false} NoiseRepeatsFrame(z: seq<Byte>, f: Frame, more: seq<Byte>)
    requires MarkerFree(z)
    ensures Scan(z + f + more) == Repeatedly(|z|, f, Scan(f[|f| - |z| % |f|..] + more))
    decreases |z|
  {
    AfterTheFirst(z, f, more);
    RepeatedlyOnce(|z|, f, Scan(f[|f| - |z| % |f|..] + more));
    if |z| >= |f| {
      NoiseRepeatsFrame(z[|f|..], f, more);
    } else {
      assert |z| % |f| == |z|;
    }
  }

  /** What follows the first `z` marker-free bytes of a stream whose frames hold no second marker. */
  function Echoes(z: nat, fs: seq<Frame>): seq<Posting> {
    if fs == [] then [] else Repeats(z, fs[0]) + Echoes(z % |fs[0]|, fs[1..])
  }

  /** The noise that is left when they have gone by. */
  function Residue(z: nat, fs: seq<Frame>): nat {
    if fs == [] then z else Residue(z % |fs[0]|, fs[1..])
  }

  ghost predicate OneMarkerEach(fs: seq<Frame>) {
    forall i :: 0 <= i < |fs| ==> MarkerFree(fs[i][1..])
  }

  lemma NoiseOnly(z: seq<Byte>)
    requires MarkerFree(z)
    ensures Scan(z) == Scanned([], 0, 0)
  {
  }

  /** The scan `s` posts what follows `z` bytes of noise before the frames, and leaves the noise that is left. */
  ghost predicate RunsThrough(s: Scanned, z: nat, fs: seq<Frame>) {
    s.posts == Echoes(z, fs) && s.dropped == 0 && s.used + Residue(z, fs) == z + |Serialize(fs)|
  }

  lemma RunsThroughOne(s: Scanned, z: nat, fs: seq<Frame>)
    requires fs != [] && RunsThrough(s, z % |fs[0]|, fs[1..])
    ensures RunsThrough(Repeatedly(z, fs[0], s), z, fs)
  {
  }

  lemma TailMarkerFree(f: Frame, r: nat)
    requires MarkerFree(f[1..]) && r < |f|
    ensures MarkerFree(f[|f| - r..])
  {
    var tail := f[|f| - r..];
    forall i | 0 <= i < |tail|
      ensures tail[i] != MSG_BEGIN
    {
      assert f[1..][|f| - r - 1 + i] == tail[i];
    }
  }

  /**
   * Noise in front of a stream of frames without a second marker: no frame is lost, each is posted
   * whole once and again for every time it fits into the noise that has come down to it, and the noise
   * that is left stays in the buffer.
   */
  lemma {:induction false} NoiseRunsThrough(z: seq<Byte>, fs: seq<Frame>)
    requires MarkerFree(z) && OneMarkerEach(fs)
    ensures RunsThrough(Scan(z + Serialize(fs)), |z|, fs)
    decreases |fs|
  {
    if fs == [] {
      assert z + Serialize(fs) == z;
      NoiseOnly(z);
    } else {
      var f, more, r := fs[0], Serialize(fs[1..]), |z| % |fs[0]|;
      assert z + Serialize(fs) == z + f + more;
      NoiseRepeatsFrame(z, f, more);
      TailMarkerFree(f, r);
      NoiseRunsThrough(f[|f| - r..], fs[1..]);
      RunsThroughOne(Scan(f[|f| - r..] + more), |z|, fs);
    }
  }

  // ---- Chunks ----

  /** Chunks that never complete anything stay buffered as they come. */
  lemma {:induction false} StaysWhileWaiting(capacity: nat, b: seq<Byte>, chunks: seq<seq<Byte>>, s: seq<Byte>)
    requires s == b + Flatten(chunks) && |s| < capacity
    requires forall n :: |b| <= n <= |s| ==> LookAt(s[..n]) == Wait
    ensures FeedAll(capacity, b, chunks) == Fed(s, [], true, 0)
    decreases |chunks|
  {
    if chunks == [] {
      assert s == b;
    } else {
      var w := b + chunks[0];
      FlattenFirst(b, chunks);
      assert s[..|w|] == w;
      FeedWaits(capacity, b, chunks[0]);
      StaysWhileWaiting(capacity, w, chunks[1..], s);
    }
  }

  lemma FeedWaits(capacity: nat, b: seq<Byte>, c: seq<Byte>)
    requires |b| + |c| < capacity && LookAt(b + c) == Wait
    ensures Feed(capacity, b, c) == Fed(b + c, [], true, 0)
  {
  }

  function Max(a: nat, b: nat): nat {
    if a < b then b else a
  }

  /** The number of bytes at which a frame behind `z` bytes of noise is taken. */
  function TakenAt(z: nat, f: Frame): nat {
    Max(|f|, z + 3)
  }

  /** The first posting of a run. */
  ghost predicate StartsWith(fed: Fed, p: Posting) {
    fed.posts != [] && fed.posts[0] == p
  }

  lemma FeedTakes(capacity: nat, b: seq<Byte>, c: seq<Byte>, p: Posting)
    requires |b| + |c| < capacity && LookAt(b + c) == Take(p.offset, p.length)
    requires p.data == Copied(b + c, p.offset, p.length)
    ensures StartsWith(Feed(capacity, b, c), p)
  {
  }

  /** The frame is taken with the chunk `k` that brings the bytes up to that number. */
  lemma NoisyRun(capacity: nat, chunks: seq<seq<Byte>>, z: seq<Byte>, f: Frame) returns (k: nat)
    requires MarkerFree(z) && |z| + |f| < capacity && Flatten(chunks) == z + f
    ensures k < |chunks| && |Flatten(chunks[..k])| < TakenAt(|z|, f) <= |Flatten(chunks[..k + 1])| <= |z| + |f|
    ensures StartsWith(FeedAll(capacity, [], chunks), Posting(|z|, |f|, f[..|Flatten(chunks[..k + 1])| - |z|]))
  {
    k := FirstReaching(chunks, TakenAt(|z|, f));
    FlattenMonotone(chunks, k + 1, |chunks|);
    assert chunks[..|chunks|] == chunks;
    ChunkBounds(chunks, k);
    BeforeTaking(capacity, chunks[..k], z, f);
    var n := |Flatten(chunks[..k + 1])|;
    TakingChunk(capacity, Flatten(chunks[..k]), chunks[k], z, f, n);
    FirstPosting(capacity, chunks, k, Flatten(chunks[..k]), Posting(|z|, |f|, f[..n - |z|]));
  }

  lemma TakingChunk(capacity: nat, b: seq<Byte>, c: seq<Byte>, z: seq<Byte>, f: Frame, n: nat)
    requires MarkerFree(z) && |z| + |f| < capacity
    requires b + c <= z + f && n == |b + c| && TakenAt(|z|, f) <= n
    ensures StartsWith(Feed(capacity, b, c), Posting(|z|, |f|, f[..n - |z|]))
  {
    assert b + c == z + f[..n - |z|];
    NoisyLook(z, f, n - |z|);
    FeedTakes(capacity, b, c, Posting(|z|, |f|, f[..n - |z|]));
  }

  lemma BeforeTaking(capacity: nat, chunks: seq<seq<Byte>>, z: seq<Byte>, f: Frame)
    requires MarkerFree(z) && Flatten(chunks) <= z + f
    requires |Flatten(chunks)| < TakenAt(|z|, f) && |z| + |f| < capacity
    ensures FeedAll(capacity, [], chunks) == Fed(Flatten(chunks), [], true, 0)
  {
    var s := Flatten(chunks);
    forall n | 0 <= n <= |s|
      ensures LookAt(s[..n]) == Wait
    {
      WaitsBefore(s, n, z, f);
    }
    assert [] + s == s;
    StaysWhileWaiting(capacity, [], chunks, s);
  }

  lemma WaitsBefore(s: seq<Byte>, n: nat, z: seq<Byte>, f: Frame)
    requires MarkerFree(z) && s <= z + f && n <= |s| < TakenAt(|z|, f)
    ensures LookAt(s[..n]) == Wait
  {
    if n < |z| {
      assert s[..n] == z[..n];
    } else {
      assert s[..n] == z + f[..n - |z|];
      NoisyLook(z, f, n - |z|);
    }
  }

  lemma ThenStarts(b: seq<Byte>, a: Fed, later: Fed, p: Posting)
    requires StartsWith(a, p)
    ensures StartsWith(Then(Fed(b, [], true, 0), Then(a, later)), p)
  {
  }

  lemma FirstPosting(capacity: nat, chunks: seq<seq<Byte>>, k: nat, b: seq<Byte>, p: Posting)
    requires k < |chunks| && FeedAll(capacity, [], chunks[..k]) == Fed(b, [], true, 0)
    requires StartsWith(Feed(capacity, b, chunks[k]), p)
    ensures StartsWith(FeedAll(capacity, [], chunks), p)
  {
    var a := Feed(capacity, b, chunks[k]);
    SplitRun(capacity, chunks, k);
    ThenStarts(b, a, FeedAll(capacity, a.buffer, chunks[k + 1..]), p);
  }

  /**
   * A frame behind noise, cut into chunks in any way: the first message is the whole frame exactly
   * when no chunk ends where the frame is already taken but not complete.
   */
  lemma NoisyCopyWholeIff(capacity: nat, chunks: seq<seq<Byte>>, z: seq<Byte>, f: Frame)
    requires MarkerFree(z) && |z| + |f| < capacity && Flatten(chunks) == z + f
    ensures var fed := FeedAll(capacity, [], chunks);
            && fed.posts != [] && fed.posts[0].offset == |z| && fed.posts[0].length == |f|
            && (fed.posts[0].data == f <==>
                forall k :: 0 <= k <= |chunks| ==> !(TakenAt(|z|, f) <= |Flatten(chunks[..k])| < |z| + |f|))
  {
    var k := NoisyRun(capacity, chunks, z, f);
    forall i | 0 <= i <= |chunks|
      ensures |Flatten(chunks[..k + 1])| == |z| + |f| ==>
                !(TakenAt(|z|, f) <= |Flatten(chunks[..i])| < |z| + |f|)
    {
      if i <= k {
        FlattenMonotone(chunks, i, k);
      } else {
        FlattenMonotone(chunks, k + 1, i);
      }
    }
    assert f[..|f|] == f;
  }

  /** Behind a single stray byte that is one byte short of the frame's end; frames of three bytes are safe. */
  lemma StrayByteWholeIff(capacity: nat, chunks: seq<seq<Byte>>, z: Byte, f: Frame)
    requires z != MSG_BEGIN && 1 + |f| < capacity && Flatten(chunks) == [z] + f
    ensures var fed := FeedAll(capacity, [], chunks);
            && fed.posts != []
            && (fed.posts[0].data == f <==>
                |f| == 3 || forall k :: 0 <= k <= |chunks| ==> |Flatten(chunks[..k])| != |f|)
  {
    NoisyCopyWholeIff(capacity, chunks, [z], f);
  }
}
