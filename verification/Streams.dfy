/** How the framer treats streams of frames, whole, cut into chunks, or interrupted by an unknown tag. */
module Streams {
  import opened Wire
  import opened Framing

  // ---- One window ----

  lemma LookAtFrame(f: Frame, w: seq<Byte>)
    ensures LookAt(f + w) == Take(0, |f|)
    ensures Copied(f + w, 0, |f|) == f
    ensures (f + w)[|f|..] == w
  {
    assert MarkerAt(f + w, 0);
  }

  lemma IncompleteWaits(s: seq<Byte>)
    requires Incomplete(s)
    ensures |s| < LONGEST
    ensures Scan(s) == Scanned([], 0, 0)
  {
    if |s| >= 3 {
      assert MarkerAt(s, 0);
    }
  }

  lemma ScanFrameFirst(f: Frame, w: seq<Byte>)
    ensures Scan(f + w) == Cons(f, Scan(w))
  {
    LookAtFrame(f, w);
  }

  /** The scan of a window that has `f` before one that scans to `s`. */
  function Cons(f: Frame, s: Scanned): Scanned {
    Scanned([Whole(f)] + s.posts, |f| + s.used, s.dropped)
  }

  /** The scan of a window that has the frames `fs` before one that scans to `s`. */
  function Prepend(fs: seq<Frame>, s: Scanned): Scanned {
    Scanned(Posts(fs) + s.posts, |Serialize(fs)| + s.used, s.dropped)
  }

  lemma PrependOne(fs: seq<Frame>, s: Scanned)
    requires fs != []
    ensures Prepend(fs, s) == Cons(fs[0], Prepend(fs[1..], s))
  {
    assert Posts(fs) + s.posts == [Whole(fs[0])] + (Posts(fs[1..]) + s.posts);
  }

  /** Frames at the front of any window are posted, and the rest is scanned as if it stood alone. */
  lemma {:induction false} FramesThenScan(fs: seq<Frame>, w: seq<Byte>)
    ensures Scan(Serialize(fs) + w) == Prepend(fs, Scan(w))
  {
    var s := Scan(w);
    if fs == [] {
      assert Serialize(fs) + w == w;
      assert Posts(fs) + s.posts == s.posts;
    } else {
      var v := Serialize(fs[1..]) + w;
      assert Serialize(fs) + w == fs[0] + v;
      ScanFrameFirst(fs[0], v);
      FramesThenScan(fs[1..], w);
      PrependOne(fs, s);
    }
  }

  lemma ScanStream(fs: seq<Frame>, rest: seq<Byte>)
    requires Incomplete(rest)
    ensures Scan(Serialize(fs) + rest) == Scanned(Posts(fs), |Serialize(fs)|, 0)
  {
    IncompleteWaits(rest);
    FramesThenScan(fs, rest);
  }

  lemma PostsInjective(fs: seq<Frame>, gs: seq<Frame>)
    requires Posts(fs) == Posts(gs)
    ensures fs == gs
  {
    forall i | 0 <= i < |fs|
      ensures fs[i] == gs[i]
    {
      assert Posts(fs)[i] == Posts(gs)[i];
    }
  }

  /** A stream determines its frames and its incomplete tail, even when payload bytes equal the marker. */
  lemma UniqueSplit(fs: seq<Frame>, rest: seq<Byte>, gs: seq<Frame>, tail: seq<Byte>)
    requires Incomplete(rest) && Incomplete(tail)
    requires Serialize(fs) + rest == Serialize(gs) + tail
    ensures fs == gs && rest == tail
  {
    ScanStream(fs, rest);
    ScanStream(gs, tail);
    PostsInjective(fs, gs);
    assert rest == (Serialize(fs) + rest)[|Serialize(fs)|..];
    assert tail == (Serialize(gs) + tail)[|Serialize(gs)|..];
  }

  lemma SerializeInjective(fs: seq<Frame>, gs: seq<Frame>)
    requires Serialize(fs) == Serialize(gs)
    ensures fs == gs
  {
    UniqueSplit(fs, [], gs, []);
  }

  /** Scanning drops nothing, skips nothing, and leaves a strict prefix of a frame. */
  ghost predicate ScansClean(w: seq<Byte>) {
    var s := Scan(w);
    s.dropped == 0 && (forall p :: p in s.posts ==> p.offset == 0) && Incomplete(w[s.used..])
  }

  lemma StreamScansClean(fs: seq<Frame>, rest: seq<Byte>)
    requires Incomplete(rest)
    ensures ScansClean(Serialize(fs) + rest)
  {
    ScanStream(fs, rest);
    assert (Serialize(fs) + rest)[|Serialize(fs)|..] == rest;
  }

  lemma {:induction false} CleanScanIsStream(w: seq<Byte>) returns (fs: seq<Frame>, rest: seq<Byte>)
    requires ScansClean(w)
    ensures Incomplete(rest) && w == Serialize(fs) + rest
  {
    fs := CleanScanIsFrames(w);
    var n := Scan(w).used;
    rest := w[n..];
    assert w == w[..n] + w[n..];
  }

  /** The framer can tell well-formed windows: they are exactly those that scan clean. */
  lemma {:induction false} WellFormedIffScansClean(w: seq<Byte>)
    ensures WellFormed(w) <==> ScansClean(w)
  {
    WellFormedIffSplits(w);
    if WellFormed(w) {
      var fs: seq<Frame>, rest: seq<Byte> :| w == Serialize(fs) + rest && IsPartial(rest);
      PartialIffIncomplete(rest);
      StreamScansClean(fs, rest);
    }
    if ScansClean(w) {
      var fs, rest := CleanScanIsStream(w);
      PartialIffIncomplete(rest);
      assert w == Serialize(fs) + rest;
    }
  }

  lemma {:induction false} CleanScanIsFrames(w: seq<Byte>) returns (fs: seq<Frame>)
    requires Scan(w).dropped == 0
    requires forall p :: p in Scan(w).posts ==> p.offset == 0
    ensures w[..Scan(w).used] == Serialize(fs)
    decreases |w|
  {
    fs := [];
    if LookAt(w).Take? {
      var f, v := CleanTake(w);
      var gs := CleanScanIsFrames(v);
      fs := [f] + gs;
      TakeBehind(f, v, Scan(v).used);
      assert fs[1..] == gs;
    }
  }

  lemma TakeBehind(f: seq<Byte>, v: seq<Byte>, n: nat)
    requires n <= |v|
    ensures (f + v)[..|f| + n] == f + v[..n]
  {
  }

  /** A window that scans clean and is not waiting starts with a frame, and the rest scans clean. */
  lemma CleanTake(w: seq<Byte>) returns (f: Frame, v: seq<Byte>)
    requires Scan(w).dropped == 0 && LookAt(w).Take?
    requires forall p :: p in Scan(w).posts ==> p.offset == 0
    ensures w == f + v && |v| < |w|
    ensures Scan(w).used == |f| + Scan(v).used
    ensures Scan(v).dropped == 0
    ensures forall p :: p in Scan(v).posts ==> p.offset == 0
  {
    TakeBounds(w);
    var Take(offset, n) := LookAt(w);
    assert Scan(w).posts[0].offset == offset;
    f, v := w[..n], w[n..];
    assert Scan(w).posts == [Scan(w).posts[0]] + Scan(v).posts;
  }

  /** Printing and parsing undo each other: frames offered in one piece are posted, or refused as too long. */
  lemma {:induction false} PrintThenParse(capacity: nat, fs: seq<Frame>)
    ensures Feed(capacity, [], Serialize(fs)) ==
            if |Serialize(fs)| < capacity then Fed([], Posts(fs), true, 0) else Fed([], [], false, |Serialize(fs)|)
  {
    var s := Serialize(fs);
    ScanStream(fs, []);
    assert s + [] == s && [] + s == s;
  }

  // ---- Chunks ----

  lemma CutStream(fs: seq<Frame>, rest: seq<Byte>, n: nat) returns (k: nat, b: seq<Byte>)
    requires Incomplete(rest) && n <= |Serialize(fs) + rest|
    ensures k <= |fs| && Incomplete(b)
    ensures (Serialize(fs) + rest)[..n] == Serialize(fs[..k]) + b
    ensures b + (Serialize(fs) + rest)[n..] == Serialize(fs[k..]) + rest
  {
    var s := Serialize(fs);
    if n <= |s| {
      k, b := CutSerialized(fs, n);
      assert (s + rest)[..n] == s[..n];
    } else {
      k, b := |fs|, rest[..n - |s|];
      assert fs[..k] == fs;
      assert (s + rest)[..n] == s + b;
    }
    SerializeSplit(fs, k);
    var p, q := Serialize(fs[..k]), Serialize(fs[k..]);
    assert s + rest == p + (q + rest);
    CancelPrefix(s + rest, n, p, b, q + rest);
  }

  lemma SerializeSplit(fs: seq<Frame>, k: nat)
    requires k <= |fs|
    ensures Serialize(fs) == Serialize(fs[..k]) + Serialize(fs[k..])
  {
    assert fs == fs[..k] + fs[k..];
    SerializeAppend(fs[..k], fs[k..]);
  }

  lemma CancelPrefix(w: seq<Byte>, n: nat, p: seq<Byte>, b: seq<Byte>, q: seq<Byte>)
    requires n <= |w| && w[..n] == p + b && w == p + q
    ensures b + w[n..] == q
  {
    assert w == p + b + w[n..];
    assert w[|p|..] == q;
  }

  /** One chunk of a stream that fits: the frames it completes are posted, the next one stays buffered. */
  lemma {:induction false} FeedStream(
      capacity: nat, b: seq<Byte>, c: seq<Byte>, tail: seq<Byte>, fs: seq<Frame>, rest: seq<Byte>)
    returns (k: nat, b': seq<Byte>)
    requires Incomplete(rest) && |b| + |c| < capacity
    requires b + c + tail == Serialize(fs) + rest
    ensures k <= |fs| && Incomplete(b')
    ensures b + c == Serialize(fs[..k]) + b'
    ensures b' + tail == Serialize(fs[k..]) + rest
    ensures Feed(capacity, b, c) == Fed(b', Posts(fs[..k]), true, 0)
  {
    var n := |b + c|;
    k, b' := CutStream(fs, rest, n);
    assert (b + c + tail)[..n] == b + c;
    assert (b + c + tail)[n..] == tail;
    ScanStream(fs[..k], b');
    assert (b + c)[|Serialize(fs[..k])|..] == b';
  }

  ghost predicate Fitting(capacity: nat, chunks: seq<seq<Byte>>) {
    LONGEST <= capacity && forall c :: c in chunks ==> |c| + LONGEST <= capacity
  }

  lemma {:induction false} FeedFirst(
      capacity: nat, b: seq<Byte>, chunks: seq<seq<Byte>>, fs: seq<Frame>, rest: seq<Byte>)
    returns (k: nat, b': seq<Byte>)
    requires Incomplete(b) && Incomplete(rest) && Fitting(capacity, chunks) && chunks != []
    requires b + Flatten(chunks) == Serialize(fs) + rest
    ensures k <= |fs| && Incomplete(b') && Fitting(capacity, chunks[1..])
    ensures b' + Flatten(chunks[1..]) == Serialize(fs[k..]) + rest
    ensures Feed(capacity, b, chunks[0]) == Fed(b', Posts(fs[..k]), true, 0)
  {
    IncompleteWaits(b);
    var c, tail := chunks[0], Flatten(chunks[1..]);
    assert b + c + tail == b + (c + tail) == b + Flatten(chunks);
    k, b' := FeedStream(capacity, b, c, tail, fs, rest);
  }

  lemma ThenPosts(fs: seq<Frame>, k: nat, b: seq<Byte>, rest: seq<Byte>, lost: nat)
    requires k <= |fs|
    ensures Then(Fed(b, Posts(fs[..k]), true, 0), Fed(rest, Posts(fs[k..]), true, lost)) ==
            Fed(rest, Posts(fs), true, lost)
  {
    assert Posts(fs[..k]) + Posts(fs[k..]) == Posts(fs);
  }

  /** Chunk independence, from any state that a stream can leave the framer in. */
  lemma {:induction false} ChunkIndependenceFrom(
      capacity: nat, b: seq<Byte>, chunks: seq<seq<Byte>>, fs: seq<Frame>, rest: seq<Byte>)
    requires Incomplete(b) && Incomplete(rest) && Fitting(capacity, chunks)
    requires b + Flatten(chunks) == Serialize(fs) + rest
    ensures FeedAll(capacity, b, chunks) == Fed(rest, Posts(fs), true, 0)
    decreases |chunks|
  {
    if chunks == [] {
      assert Serialize([]) + b == b == b + Flatten(chunks);
      UniqueSplit([], b, fs, rest);
      assert Posts(fs) == [];
    } else {
      var k, b' := FeedFirst(capacity, b, chunks, fs, rest);
      ChunkIndependenceFrom(capacity, b', chunks[1..], fs[k..], rest);
      ThenPosts(fs, k, b', rest, 0);
    }
  }

  /**
   * Chunk independence: a stream of frames with an incomplete tail, cut into chunks in any way that
   * fits, is posted frame by frame and in order, loses nothing, and leaves exactly the tail buffered.
   */
  lemma {:induction false} ChunkIndependence(capacity: nat, chunks: seq<seq<Byte>>, fs: seq<Frame>, rest: seq<Byte>)
    requires IsPartial(rest) && Fitting(capacity, chunks)
    requires Flatten(chunks) == Serialize(fs) + rest
    ensures |rest| < LONGEST
    ensures FeedAll(capacity, [], chunks) == Fed(rest, Posts(fs), true, 0)
  {
    PartialIffIncomplete(rest);
    IncompleteWaits(rest);
    assert [] + Flatten(chunks) == Flatten(chunks);
    ChunkIndependenceFrom(capacity, [], chunks, fs, rest);
  }
}
