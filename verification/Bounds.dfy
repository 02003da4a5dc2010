/** Where the framer's copies end: inside the bytes received, inside the buffer, or behind it. */
module Bounds {
  import opened Wire
  import opened Framing
  import opened Streams
  import opened Limits

  // ---- Streams ----

  lemma {:induction false} PostsContained(capacity: nat, from: nat, fs: seq<Frame>)
    requires from + |Serialize(fs)| <= capacity
    ensures Contained(capacity, from, Posts(fs))
    decreases |fs|
  {
    if fs != [] {
      assert Posts(fs)[1..] == Posts(fs[1..]);
      PostsContained(capacity, from + |fs[0]|, fs[1..]);
    }
  }

  lemma FirstContained(capacity: nat, b: seq<Byte>, chunks: seq<seq<Byte>>, fs: seq<Frame>, rest: seq<Byte>)
    returns (k: nat, b': seq<Byte>)
    requires Incomplete(b) && Incomplete(rest) && Fitting(capacity, chunks) && chunks != []
    requires b + Flatten(chunks) == Serialize(fs) + rest
    ensures k <= |fs| && Incomplete(b') && Fitting(capacity, chunks[1..])
    ensures b' + Flatten(chunks[1..]) == Serialize(fs[k..]) + rest
    ensures var f := Feed(capacity, b, chunks[0]); f.buffer == b' && Contained(capacity, 0, f.posts)
  {
    IncompleteWaits(b);
    var c, tail := chunks[0], Flatten(chunks[1..]);
    assert b + c + tail == b + (c + tail) == b + Flatten(chunks);
    k, b' := FeedStream(capacity, b, c, tail, fs, rest);
    PostsContained(capacity, 0, fs[..k]);
  }

  /** On a stream, however it is cut into fitting chunks, every copy ends inside the buffer. */
  lemma {:induction false} StreamContained(
    capacity: nat, b: seq<Byte>, chunks: seq<seq<Byte>>, fs: seq<Frame>, rest: seq<Byte>)
    requires Incomplete(b) && Incomplete(rest) && Fitting(capacity, chunks)
    requires b + Flatten(chunks) == Serialize(fs) + rest
    ensures AllContained(capacity, b, chunks)
    decreases |chunks|
  {
    if chunks != [] {
      var k, b' := FirstContained(capacity, b, chunks, fs, rest);
      StreamContained(capacity, b', chunks[1..], fs[k..], rest);
    }
  }

  // ---- Any bytes ----

  /** Fifteen bytes to spare behind a window are enough, whatever it holds. */
  lemma {:induction false} SpareEnough(capacity: nat, from: nat, w: seq<Byte>)
    requires from + |w| + 15 <= capacity
    ensures Contained(capacity, from, Scan(w).posts)
    decreases |w|
  {
    if LookAt(w).Take? {
      TakeBounds(w);
      var n := LookAt(w).length;
      SpareEnough(capacity, from + n, w[n..]);
      assert Scan(w).posts[1..] == Scan(w[n..]).posts;
    }
  }

  /** Zeros, and a marker with an answer's tag at the very end. */
  function LateMarker(n: nat): (w: seq<Byte>)
    requires n >= 3
    ensures |w| == n
  {
    seq(n - 3, _ => 0) + [MSG_BEGIN, 0, 2]
  }

  lemma LateMarkerTaken(n: nat)
    requires n >= LONGEST
    ensures Scan(LateMarker(n)).posts != []
    ensures Scan(LateMarker(n)).posts[0] == Posting(n - 3, LONGEST, [MSG_BEGIN, 0, 2])
  {
    var w := LateMarker(n);
    assert MarkerAt(w, n - 3);
    assert MarkerFrom(w, 0) == n - 3;
    assert w[n - 3..] == [MSG_BEGIN, 0, 2];
  }

  /** Every window of `n` bytes is cut up without a copy leaving the buffer. */
  ghost predicate NeverLeaves(capacity: nat, n: nat) {
    forall w: seq<Byte> :: |w| == n ==> Contained(capacity, 0, Scan(w).posts)
  }

  /**
   * The copies stay inside the buffer whatever `n` bytes it holds exactly when 15 more would fit.  The
   * framer itself only sees to it that one more fits.
   */
  lemma NeverLeavesIff(capacity: nat, n: nat)
    requires n >= 18
    ensures NeverLeaves(capacity, n) <==> n + 15 <= capacity
  {
    if n + 15 <= capacity {
      forall w: seq<Byte> | |w| == n
        ensures Contained(capacity, 0, Scan(w).posts)
      {
        SpareEnough(capacity, 0, w);
      }
    } else {
      LateMarkerTaken(n);
      assert !Contained(capacity, 0, Scan(LateMarker(n)).posts);
    }
  }

  /** A first read of 2047 bytes into the default buffer can make the framer copy 14 bytes from behind it. */
  lemma CopyCanLeaveBuffer()
    ensures var f := Feed(2048, [], LateMarker(2047));
            f.ok && f.posts != [] && f.posts[0] == Posting(2044, 18, [MSG_BEGIN, 0, 2]) && !Contained(2048, 0, f.posts)
  {
    LateMarkerTaken(2047);
    assert [] + LateMarker(2047) == LateMarker(2047);
  }

  /** Any run whose buffered and offered bytes always leave that much room keeps its copies inside the buffer. */
  ghost predicate Roomy(capacity: nat, buffer: seq<Byte>, chunks: seq<seq<Byte>>)
    decreases |chunks|
  {
    chunks == [] ||
    (|buffer| + |chunks[0]| + 15 <= capacity && Roomy(capacity, Feed(capacity, buffer, chunks[0]).buffer, chunks[1..]))
  }

  lemma {:induction false} RoomyContained(capacity: nat, buffer: seq<Byte>, chunks: seq<seq<Byte>>)
    requires Roomy(capacity, buffer, chunks)
    ensures AllContained(capacity, buffer, chunks)
    decreases |chunks|
  {
    if chunks != [] {
      SpareEnough(capacity, 0, buffer + chunks[0]);
      RoomyContained(capacity, Feed(capacity, buffer, chunks[0]).buffer, chunks[1..]);
    }
  }
}
