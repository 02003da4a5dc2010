/** How large chunks may be, and what the framer does after it has dropped bytes. */
module Limits {
  import opened Wire
  import opened Framing
  import opened Streams

  // ---- The largest safe chunk ----

  /** No well-formed stream cut into chunks of at most `m` bytes is ever refused. */
  ghost predicate NeverRefuses(capacity: nat, m: nat) {
    forall chunks: seq<seq<Byte>> ::
      WellFormed(Flatten(chunks)) && (forall c :: c in chunks ==> |c| <= m) ==> FeedAll(capacity, [], chunks).ok
  }

  function Singles(w: seq<Byte>): seq<seq<Byte>> {
    if w == [] then [] else [[w[0]]] + Singles(w[1..])
  }

  lemma {:induction false} FlattenSingles(w: seq<Byte>)
    ensures Flatten(Singles(w)) == w
    ensures forall c :: c in Singles(w) ==> |c| == 1
  {
    if w != [] {
      FlattenSingles(w[1..]);
    }
  }

  lemma IncompletePrefix(s: seq<Byte>, p: seq<Byte>)
    requires Incomplete(s) && p <= s
    ensures Incomplete(p)
  {
  }

  lemma FeedIncomplete(capacity: nat, b: seq<Byte>, c: seq<Byte>)
    requires Incomplete(b + c) && |b| + |c| < capacity
    ensures Feed(capacity, b, c) == Fed(b + c, [], true, 0)
  {
    IncompleteWaits(b + c);
  }

  lemma {:induction false} FirstOk(capacity: nat, b: seq<Byte>, chunks: seq<seq<Byte>>)
    requires chunks != [] && Incomplete(b + chunks[0])
    ensures var later := FeedAll(capacity, b + chunks[0], chunks[1..]);
            FeedAll(capacity, b, chunks).ok ==> later.ok && FeedAll(capacity, b, chunks).buffer == later.buffer
  {
    if |b| + |chunks[0]| < capacity {
      FeedIncomplete(capacity, b, chunks[0]);
    }
  }

  /** Bytes that do not complete a frame stay in the buffer, unless they are refused. */
  lemma {:induction false} StaysBuffered(capacity: nat, b: seq<Byte>, chunks: seq<seq<Byte>>, s: seq<Byte>)
    requires Incomplete(s) && s == b + Flatten(chunks)
    ensures FeedAll(capacity, b, chunks).ok ==> FeedAll(capacity, b, chunks).buffer == s
    decreases |chunks|
  {
    if chunks == [] {
      assert s == b;
    } else {
      var w := b + chunks[0];
      FlattenFirst(b, chunks);
      IncompletePrefix(s, w);
      FirstOk(capacity, b, chunks);
      StaysBuffered(capacity, w, chunks[1..], s);
    }
  }

  lemma FlattenFirst(b: seq<Byte>, chunks: seq<seq<Byte>>)
    requires chunks != []
    ensures b + Flatten(chunks) == b + chunks[0] + Flatten(chunks[1..])
    ensures b + chunks[0] <= b + Flatten(chunks)
  {
    assert b + (chunks[0] + Flatten(chunks[1..])) == b + chunks[0] + Flatten(chunks[1..]);
  }

  /** A well-formed stream of any length. */
  lemma {:induction false} LongStream(n: nat) returns (fs: seq<Frame>)
    ensures |Serialize(fs)| >= n
    ensures n > 0 ==> fs != [] && fs[0] == BlankAnswer(0)
  {
    if n == 0 {
      fs := [];
    } else {
      var gs := LongStream(n - 1);
      fs := [BlankAnswer(0)] + gs;
    }
  }

  lemma LastRefused(capacity: nat, head: seq<Byte>, c: seq<Byte>)
    requires Incomplete(head) && |head| + |c| >= capacity
    ensures !FeedAll(capacity, [], Singles(head) + [c]).ok
  {
    var x := FeedAll(capacity, [], Singles(head));
    FeedAllAppend(capacity, [], Singles(head), [c]);
    FlattenSingles(head);
    assert [] + head == head;
    StaysBuffered(capacity, [], Singles(head), head);
  }

  /** All but the last byte of an answer, byte by byte, and then a chunk that no longer fits. */
  lemma OneStepShort(capacity: nat, m: nat) returns (chunks: seq<seq<Byte>>)
    requires m >= 1 && capacity < m + LONGEST
    ensures WellFormed(Flatten(chunks)) && (forall c :: c in chunks ==> |c| <= m)
    ensures !FeedAll(capacity, [], chunks).ok
  {
    var fs := LongStream(m + 17);
    var s := Serialize(fs);
    var head, c := s[..17], s[17..17 + m];
    assert head == BlankAnswer(0)[..17];
    LastRefused(capacity, head, c);
    chunks := Singles(head) + [c];
    FlattenSingles(head);
    FlattenAppend(Singles(head), [c]);
    assert Flatten([c]) == c;
    assert Flatten(chunks) == s[..17 + m] <= Serialize(fs);
  }

  /** The bound on chunks is exact: one byte more and some well-formed stream is refused. */
  lemma {:induction false} NeverRefusesIff(capacity: nat, m: nat)
    requires m >= 1
    ensures NeverRefuses(capacity, m) <==> m + 18 <= capacity
  {
    if m + LONGEST <= capacity {
      forall chunks: seq<seq<Byte>> | WellFormed(Flatten(chunks)) && (forall c :: c in chunks ==> |c| <= m)
        ensures FeedAll(capacity, [], chunks).ok
      {
        WellFormedIffSplits(Flatten(chunks));
        var fs: seq<Frame>, rest: seq<Byte> :| Flatten(chunks) == Serialize(fs) + rest && IsPartial(rest);
        ChunkIndependence(capacity, chunks, fs, rest);
      }
    } else {
      var chunks := OneStepShort(capacity, m);
    }
  }

  // ---- After a drop ----

  /** The marker, an address and a tag that is not one of the protocol's. */
  predicate IsBad(s: seq<Byte>) {
    |s| == 3 && s[0] == 0xf9 && (s[2] == 0 || s[2] > 7)
  }

  /** At a frame boundary, an unknown tag ends the scan: the frames before it are posted, everything else is dropped. */
  lemma {:induction false} ScanInterrupted(fs: seq<Frame>, bad: seq<Byte>, x: seq<Byte>)
    requires IsBad(bad)
    ensures Scan(Serialize(fs) + (bad + x)) == Scanned(Posts(fs), |Serialize(fs)| + 3 + |x|, 3 + |x|)
  {
    assert MarkerAt(bad + x, 0);
    assert LookAt(bad + x) == Drop;
    FramesThenScan(fs, bad + x);
  }

  lemma {:induction false} FirstReaching(chunks: seq<seq<Byte>>, n: nat) returns (k: nat)
    requires 0 < n <= |Flatten(chunks)|
    ensures k < |chunks|
    ensures |Flatten(chunks[..k])| < n <= |Flatten(chunks[..k + 1])|
  {
    if n <= |chunks[0]| {
      k := 0;
      assert chunks[..1] == [chunks[0]];
      assert Flatten([chunks[0]]) == chunks[0];
    } else {
      k := FirstReaching(chunks[1..], n - |chunks[0]|);
      k := k + 1;
      assert chunks[..k][1..] == chunks[1..][..k - 1];
      assert chunks[..k + 1][1..] == chunks[1..][..k];
    }
  }

  lemma FlattenSplit(chunks: seq<seq<Byte>>, k: nat)
    requires k <= |chunks|
    ensures Flatten(chunks) == Flatten(chunks[..k]) + Flatten(chunks[k..])
  {
    assert chunks == chunks[..k] + chunks[k..];
    FlattenAppend(chunks[..k], chunks[k..]);
  }

  lemma FlattenMonotone(chunks: seq<seq<Byte>>, i: nat, j: nat)
    requires i <= j <= |chunks|
    ensures |Flatten(chunks[..i])| <= |Flatten(chunks[..j])|
  {
    FlattenSplit(chunks[..j], i);
    assert chunks[..j][..i] == chunks[..i];
  }

  lemma {:induction false} AdvancePosts(fs: seq<Frame>)
    ensures Advance(Posts(fs)) == |Serialize(fs)|
  {
    if fs != [] {
      assert Posts(fs)[1..] == Posts(fs[1..]);
      AdvancePosts(fs[1..]);
    }
  }

  lemma InterruptedFeed(capacity: nat, b: seq<Byte>, c: seq<Byte>, fs: seq<Frame>, bad: seq<Byte>, m: nat)
    requires IsBad(bad) && |b| + |c| < capacity
    requires m <= |c| && b + c[..m] == Serialize(fs) + bad
    ensures Feed(capacity, b, c) == Fed([], Posts(fs), true, 3 + |c[m..]|)
  {
    assert b + c == b + c[..m] + c[m..];
    assert b + c == Serialize(fs) + (bad + c[m..]);
    ScanInterrupted(fs, bad, c[m..]);
  }

  lemma KeepLast(p: seq<Byte>, more: seq<Byte>, w: seq<Byte>, last: seq<Byte>)
    requires p + more == w + last && |last| == 1 && more != []
    ensures |p| <= |w| && w[..|p|] == p && more == w[|p|..] + last
  {
    assert p == (p + more)[..|p|] == (w + last)[..|p|];
    assert more == (p + more)[|p|..] == (w + last)[|p|..];
  }

  /** What precedes the chunk that completes an unknown tag: frames posted, a partial frame buffered. */
  lemma {:induction false} BeforeInterruption(
      capacity: nat, before: seq<seq<Byte>>, fs: seq<Frame>, bad: seq<Byte>, more: seq<Byte>)
    returns (j: nat, b: seq<Byte>)
    requires IsBad(bad) && Fitting(capacity, before)
    requires Flatten(before) + more == Serialize(fs) + bad
    requires more != []
    ensures j <= |fs| && Incomplete(b)
    ensures FeedAll(capacity, [], before) == Fed(b, Posts(fs[..j]), true, 0)
    ensures b + more == Serialize(fs[j..]) + bad
  {
    var start, last := bad[..2], bad[2..];
    var w := Serialize(fs) + start;
    assert Serialize(fs) + bad == w + last;
    KeepLast(Flatten(before), more, w, last);
    j, b := BeforeEnd(capacity, before, fs, start);
    Glue(b, w[|Flatten(before)|..], Serialize(fs[j..]), start, last);
    assert bad == start + last;
  }

  lemma Glue(b: seq<Byte>, r: seq<Byte>, q: seq<Byte>, start: seq<Byte>, last: seq<Byte>)
    requires b + r == q + start
    ensures b + (r + last) == q + (start + last)
  {
    assert b + (r + last) == b + r + last;
    assert q + (start + last) == q + start + last;
  }

  /** Feeding a part of a stream. */
  lemma {:induction false} BeforeEnd(capacity: nat, before: seq<seq<Byte>>, fs: seq<Frame>, rest: seq<Byte>)
    returns (j: nat, b: seq<Byte>)
    requires Incomplete(rest) && Fitting(capacity, before)
    requires Flatten(before) <= Serialize(fs) + rest
    ensures j <= |fs| && Incomplete(b)
    ensures FeedAll(capacity, [], before) == Fed(b, Posts(fs[..j]), true, 0)
    ensures b + (Serialize(fs) + rest)[|Flatten(before)|..] == Serialize(fs[j..]) + rest
  {
    var p := Flatten(before);
    j, b := CutStream(fs, rest, |p|);
    assert [] + p == p;
    ChunkIndependenceFrom(capacity, [], before, fs[..j], b);
  }

  /**
   * A stream interrupted at a frame boundary by an unknown tag: there is a chunk in which the tag
   * completes; the frames before it are posted, the remainder `x` of that chunk is dropped with it,
   * and the chunks that follow are handled exactly as by a new framer.
   */
  lemma {:induction false} Recovery(
      capacity: nat, chunks: seq<seq<Byte>>, fs: seq<Frame>, bad: seq<Byte>, after: seq<Byte>)
    returns (k: nat, x: seq<Byte>)
    requires IsBad(bad) && Fitting(capacity, chunks)
    requires Flatten(chunks) == Serialize(fs) + bad + after
    ensures k < |chunks|
    ensures |Flatten(chunks[..k])| < |Serialize(fs)| + 3
    ensures |Flatten(chunks[..k + 1])| == |Serialize(fs)| + 3 + |x|
    ensures x + Flatten(chunks[k + 1..]) == after
    ensures FeedAll(capacity, [], chunks) ==
            Then(Fed([], Posts(fs), true, 3 + |x|), FeedAll(capacity, [], chunks[k + 1..]))
  {
    var s := Serialize(fs) + bad;
    k := FirstReaching(chunks, |s|);
    var m := |s| - |Flatten(chunks[..k])|;
    ChunkBounds(chunks, k);
    x := chunks[k][m..];
    RecoveryCut(s, after, chunks, k, m);
    RecoveryAt(capacity, chunks, k, m, fs, bad);
  }

  lemma {:induction false} ChunkBounds(chunks: seq<seq<Byte>>, k: nat)
    requires k < |chunks|
    ensures Flatten(chunks[..k + 1]) == Flatten(chunks[..k]) + chunks[k]
    ensures Flatten(chunks) == Flatten(chunks[..k]) + chunks[k] + Flatten(chunks[k + 1..])
  {
    FlattenSplit(chunks, k + 1);
    assert chunks[..k + 1] == chunks[..k] + [chunks[k]];
    FlattenAppend(chunks[..k], [chunks[k]]);
    FlattenOne(chunks[k]);
  }

  lemma FlattenOne(c: seq<Byte>)
    ensures Flatten([c]) == c
  {
    assert Flatten([c]) == c + Flatten([]);
  }

  /** The run around the chunk `k` whose first `m` bytes complete the unknown tag. */
  lemma {:induction false} RecoveryAt(
      capacity: nat, chunks: seq<seq<Byte>>, k: nat, m: nat, fs: seq<Frame>, bad: seq<Byte>)
    requires IsBad(bad) && Fitting(capacity, chunks)
    requires k < |chunks| && 0 < m <= |chunks[k]|
    requires Flatten(chunks[..k]) + chunks[k][..m] == Serialize(fs) + bad
    ensures FeedAll(capacity, [], chunks) ==
            Then(Fed([], Posts(fs), true, 3 + |chunks[k][m..]|), FeedAll(capacity, [], chunks[k + 1..]))
  {
    var c, x := chunks[k], chunks[k][m..];
    var j, b := BeforeInterruption(capacity, chunks[..k], fs, bad, c[..m]);
    IncompleteWaits(b);
    InterruptedFeed(capacity, b, c, fs[j..], bad, m);
    RecoveryRun(capacity, chunks, k, b, fs, j, 3 + |x|);
  }

  lemma RecoveryCut(s: seq<Byte>, after: seq<Byte>, chunks: seq<seq<Byte>>, k: nat, m: nat)
    requires s + after == Flatten(chunks)
    requires k < |chunks| && |Flatten(chunks[..k])| + m == |s| && m <= |chunks[k]|
    ensures Flatten(chunks[..k]) + chunks[k][..m] == s
    ensures chunks[k][m..] + Flatten(chunks[k + 1..]) == after
    ensures |Flatten(chunks[..k + 1])| == |s| + |chunks[k][m..]|
  {
    ChunkBounds(chunks, k);
    var w := s + after;
    assert s == w[..|s|] && after == w[|s|..];
    assert Flatten(chunks[..k]) + chunks[k][..m] == w[..|s|];
    assert chunks[k][m..] + Flatten(chunks[k + 1..]) == w[|s|..];
  }

  lemma RecoveryRun(capacity: nat, chunks: seq<seq<Byte>>, k: nat, b: seq<Byte>, fs: seq<Frame>, j: nat, lost: nat)
    requires k < |chunks| && j <= |fs|
    requires FeedAll(capacity, [], chunks[..k]) == Fed(b, Posts(fs[..j]), true, 0)
    requires Feed(capacity, b, chunks[k]) == Fed([], Posts(fs[j..]), true, lost)
    ensures FeedAll(capacity, [], chunks) ==
            Then(Fed([], Posts(fs), true, lost), FeedAll(capacity, [], chunks[k + 1..]))
  {
    SplitRun(capacity, chunks, k);
    RecoverySum(b, fs, j, lost, FeedAll(capacity, [], chunks[k + 1..]));
  }

  /** A run before, with and after its chunk `k`. */
  lemma SplitRun(capacity: nat, chunks: seq<seq<Byte>>, k: nat)
    requires k < |chunks|
    ensures var x := FeedAll(capacity, [], chunks[..k]);
            var a := Feed(capacity, x.buffer, chunks[k]);
            FeedAll(capacity, [], chunks) == Then(x, Then(a, FeedAll(capacity, a.buffer, chunks[k + 1..])))
  {
    assert chunks == chunks[..k] + chunks[k..];
    FeedAllAppend(capacity, [], chunks[..k], chunks[k..]);
    FeedAllFirst(capacity, FeedAll(capacity, [], chunks[..k]).buffer, chunks, k);
  }

  lemma RecoverySum(b: seq<Byte>, fs: seq<Frame>, j: nat, lost: nat, later: Fed)
    requires j <= |fs|
    ensures Then(Fed(b, Posts(fs[..j]), true, 0), Then(Fed([], Posts(fs[j..]), true, lost), later)) ==
            Then(Fed([], Posts(fs), true, lost), later)
  {
    ThenAssociative(Fed(b, Posts(fs[..j]), true, 0), Fed([], Posts(fs[j..]), true, lost), later);
    ThenPosts(fs, j, b, [], lost);
  }

  lemma FeedAllFirst(capacity: nat, b: seq<Byte>, chunks: seq<seq<Byte>>, k: nat)
    requires k < |chunks|
    ensures var stop := Feed(capacity, b, chunks[k]);
            FeedAll(capacity, b, chunks[k..]) == Then(stop, FeedAll(capacity, stop.buffer, chunks[k + 1..]))
  {
    assert chunks[k..][1..] == chunks[k + 1..];
  }

  /** An interrupted stream whose frames on both sides of the unknown tag are all posted. */
  ghost predicate NothingLost(capacity: nat, chunks: seq<seq<Byte>>, fs: seq<Frame>, gs: seq<Frame>) {
    FeedAll(capacity, [], chunks).posts == Posts(fs + gs)
  }

  /**
   * Chunk independence fails once a tag is unknown.  The frames after it survive exactly when some
   * chunk ends right behind the tag, or when there are none.
   */
  lemma {:induction false} InterruptionHarmlessIff(
      capacity: nat, chunks: seq<seq<Byte>>, fs: seq<Frame>, bad: seq<Byte>, gs: seq<Frame>)
    requires IsBad(bad) && Fitting(capacity, chunks)
    requires Flatten(chunks) == Serialize(fs) + bad + Serialize(gs)
    ensures NothingLost(capacity, chunks, fs, gs) <==>
            gs == [] || exists k :: 0 <= k <= |chunks| && |Flatten(chunks[..k])| == |Serialize(fs)| + 3
  {
    var k, x := Recovery(capacity, chunks, fs, bad, Serialize(gs));
    LaterPosts(capacity, chunks[k + 1..], x, gs);
    PostsAppend(fs, FeedAll(capacity, [], chunks[k + 1..]).posts, gs);
    if x != [] {
      NoBoundary(chunks, k, |Serialize(fs)| + 3);
    }
  }

  lemma PostsAppend(fs: seq<Frame>, later: seq<Posting>, gs: seq<Frame>)
    ensures Posts(fs) + later == Posts(fs + gs) <==> later == Posts(gs)
  {
    assert Posts(fs + gs) == Posts(fs) + Posts(gs);
    if Posts(fs) + later == Posts(fs) + Posts(gs) {
      assert later == (Posts(fs) + later)[|fs|..] == (Posts(fs) + Posts(gs))[|fs|..];
    }
  }

  /** Once bytes of `gs` are gone, fewer bytes remain than posting `gs` would need. */
  lemma LaterPosts(capacity: nat, later: seq<seq<Byte>>, x: seq<Byte>, gs: seq<Frame>)
    requires Fitting(capacity, later) && x + Flatten(later) == Serialize(gs)
    ensures FeedAll(capacity, [], later).posts == Posts(gs) <==> x == []
  {
    if x == [] {
      assert [] + Flatten(later) == Serialize(gs) + [];
      ChunkIndependenceFrom(capacity, [], later, gs, []);
    } else {
      BytesConserved(capacity, [], later);
      AdvancePosts(gs);
    }
  }

  lemma NoBoundary(chunks: seq<seq<Byte>>, k: nat, n: nat)
    requires k < |chunks| && |Flatten(chunks[..k])| < n < |Flatten(chunks[..k + 1])|
    ensures forall i :: 0 <= i <= |chunks| ==> |Flatten(chunks[..i])| != n
  {
    forall i | 0 <= i <= |chunks|
      ensures |Flatten(chunks[..i])| != n
    {
      if i <= k {
        FlattenMonotone(chunks, i, k);
      } else {
        FlattenMonotone(chunks, k + 1, i);
      }
    }
  }

  /** A frame in the same chunk as an unknown tag is lost. */
  lemma InterruptionCanLose()
    ensures var bad: seq<Byte>, f: Frame := [MSG_BEGIN, 0, 8], [MSG_BEGIN, 0, 1];
            IsBad(bad) && !NothingLost(2048, [bad + f], [], [f])
  {
    var bad: seq<Byte>, f: Frame := [MSG_BEGIN, 0, 8], [MSG_BEGIN, 0, 1];
    ScanInterrupted([], bad, f);
    assert Serialize([]) + (bad + f) == [] + (bad + f) == bad + f;
    FeedAllFirst(2048, [], [bad + f], 0);
    assert Posts([] + [f]) != [];
  }

  /** A refused chunk empties the buffer and posts nothing; streams are handled from scratch afterwards. */
  lemma {:induction false} OverflowRecovery(
      capacity: nat, before: seq<seq<Byte>>, c: seq<Byte>, chunks: seq<seq<Byte>>, fs: seq<Frame>, rest: seq<Byte>)
    requires Fitting(capacity, chunks) && Flatten(chunks) == Serialize(fs) + rest && IsPartial(rest)
    requires var b := FeedAll(capacity, [], before).buffer; |b| + |c| >= capacity
    ensures var x := FeedAll(capacity, [], before);
            FeedAll(capacity, [], before + [c] + chunks) ==
            Fed(rest, x.posts + Posts(fs), false, x.dropped + |x.buffer| + |c|)
  {
    var x := FeedAll(capacity, [], before);
    ChunkIndependence(capacity, chunks, fs, rest);
    assert before + [c] + chunks == before + ([c] + chunks);
    FeedAllAppend(capacity, [], before, [c] + chunks);
    assert ([c] + chunks)[1..] == chunks;
    assert Feed(capacity, x.buffer, c) == Fed([], [], false, |x.buffer| + |c|);
    assert [] + Posts(fs) == Posts(fs);
  }
}
