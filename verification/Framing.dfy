/** What the stream framer does with a window of received bytes, as functions on sequences. */
module Framing {
  import opened Wire

  /**
   * One message posted to the main window.  The framer skips `offset` bytes to a marker and posts
   * `length` bytes from there; `data` holds those of them that had been received.
   */
  datatype Posting = Posting(offset: nat, length: nat, data: seq<Byte>)

  /** The outcome of looking at a window once. */
  datatype Look = Wait | Drop | Take(offset: nat, length: nat)

  /** What is posted from a window, how many of its bytes leave the buffer, and how many of those are dropped. */
  datatype Scanned = Scanned(posts: seq<Posting>, used: nat, dropped: nat)

  /** The result of offering bytes: what stays buffered, what was posted, success, bytes dropped. */
  datatype Fed = Fed(buffer: seq<Byte>, posts: seq<Posting>, ok: bool, dropped: nat)

  predicate MarkerAt(w: seq<Byte>, i: nat) {
    i + 2 < |w| && w[i] == MSG_BEGIN
  }

  /** The first usable marker at or after `i`, or |w| when there is none. */
  function MarkerFrom(w: seq<Byte>, i: nat): (r: nat)
    requires i <= |w|
    ensures i <= r <= |w|
    ensures r < |w| ==> MarkerAt(w, r)
    ensures forall j :: i <= j < r ==> !MarkerAt(w, j)
    decreases |w| - i
  {
    if i == |w| || MarkerAt(w, i) then i else MarkerFrom(w, i + 1)
  }

  function LookAt(w: seq<Byte>): Look {
    var offset := MarkerFrom(w, 0);
    if offset == |w| then Wait
    else
      var n := FrameLength(w[offset + 2]);
      if n == 0 then Drop
      else if n > |w| then Wait
      else Take(offset, n)
  }

  /** The received part of `n` bytes starting at `offset`. */
  function Copied(w: seq<Byte>, offset: nat, n: nat): seq<Byte>
    requires offset <= |w|
  {
    if offset + n <= |w| then w[offset..offset + n] else w[offset..]
  }

  function Scan(w: seq<Byte>): (r: Scanned)
    ensures r.used <= |w|
    decreases |w|
  {
    match LookAt(w)
    case Wait => Scanned([], 0, 0)
    case Drop => Scanned([], |w|, |w|)
    case Take(offset, n) =>
      var rest := Scan(w[n..]);
      Scanned([Posting(offset, n, Copied(w, offset, n))] + rest.posts, n + rest.used, rest.dropped)
  }

  /** Offering one chunk to a framer of the given capacity that holds `buffer`. */
  function Feed(capacity: nat, buffer: seq<Byte>, chunk: seq<Byte>): Fed {
    if |buffer| + |chunk| >= capacity then
      Fed([], [], false, |buffer| + |chunk|)
    else
      var w := buffer + chunk;
      var s := Scan(w);
      Fed(w[s.used..], s.posts, true, s.dropped)
  }

  /** Offering chunks one after another. */
  function FeedAll(capacity: nat, buffer: seq<Byte>, chunks: seq<seq<Byte>>): Fed
    decreases |chunks|
  {
    if chunks == [] then Fed(buffer, [], true, 0)
    else
      var a := Feed(capacity, buffer, chunks[0]);
      Then(a, FeedAll(capacity, a.buffer, chunks[1..]))
  }

  /** Two results in succession, the second starting from the buffer of the first. */
  function Then(a: Fed, b: Fed): Fed {
    Fed(b.buffer, a.posts + b.posts, a.ok && b.ok, a.dropped + b.dropped)
  }

  function Flatten(chunks: seq<seq<Byte>>): seq<Byte> {
    if chunks == [] then [] else chunks[0] + Flatten(chunks[1..])
  }

  /** A frame posted in full, with nothing skipped before it. */
  function Whole(f: Frame): Posting {
    Posting(0, |f|, f)
  }

  function Posts(fs: seq<Frame>): (r: seq<Posting>)
    ensures |r| == |fs|
    ensures forall i :: 0 <= i < |r| ==> r[i] == Whole(fs[i])
  {
    seq(|fs|, i requires 0 <= i < |fs| => Whole(fs[i]))
  }

  /** How many bytes the postings advance the buffer by, in total. */
  function Advance(posts: seq<Posting>): nat {
    if posts == [] then 0 else posts[0].length + Advance(posts[1..])
  }

  /**
   * Every copy made for `posts` ends inside a block of `capacity` bytes, when the window of the first
   * begins at `from` and that of each other one where the one before has been used up.
   */
  predicate Contained(capacity: nat, from: nat, posts: seq<Posting>)
    decreases |posts|
  {
    posts == [] ||
    (from + posts[0].offset + posts[0].length <= capacity && Contained(capacity, from + posts[0].length, posts[1..]))
  }

  /** The same for the copies made while chunks are offered one after another. */
  predicate AllContained(capacity: nat, buffer: seq<Byte>, chunks: seq<seq<Byte>>)
    decreases |chunks|
  {
    chunks == [] ||
    (var f := Feed(capacity, buffer, chunks[0]);
     Contained(capacity, 0, f.posts) && AllContained(capacity, f.buffer, chunks[1..]))
  }

  // ---- Facts about arbitrary bytes ----

  /** A message taken is no longer than its window and starts with the marker, and its tag fixes its length. */
  lemma TakeBounds(w: seq<Byte>)
    requires LookAt(w).Take?
    ensures var Take(offset, n) := LookAt(w);
            && offset + 2 < |w| && 3 <= n <= |w|
            && var data := Copied(w, offset, n);
            && 3 <= |data| <= n && data[0] == MSG_BEGIN && n == FrameLength(data[2])
            && (|data| == n <==> offset + n <= |w|)
  {
  }

  predicate Announced(p: Posting) {
    3 <= |p.data| <= p.length && p.data[0] == MSG_BEGIN && p.length == FrameLength(p.data[2])
  }

  lemma {:induction false} ScanAnnounced(w: seq<Byte>)
    ensures forall p :: p in Scan(w).posts ==> Announced(p)
    decreases |w|
  {
    if LookAt(w).Take? {
      TakeBounds(w);
      ScanAnnounced(w[LookAt(w).length..]);
    }
  }

  /**
   * Whatever the bytes and however they are cut, every posting starts with the marker, has one of the
   * seven known tags, and has the length that goes with it.
   */
  lemma {:induction false} PostingsAnnounced(capacity: nat, buffer: seq<Byte>, chunks: seq<seq<Byte>>)
    ensures forall p :: p in FeedAll(capacity, buffer, chunks).posts ==>
              && 3 <= |p.data| <= p.length && p.data[0] == 0xf9 && 1 <= p.data[2] <= 7
              && (p.length == 18 <==> p.data[2] == 2)
              && (p.length == 15 <==> p.data[2] == 5)
              && (p.length == 6 <==> p.data[2] == 7)
              && (p.length == 3 <==> p.data[2] in {1, 3, 4, 6})
    decreases |chunks|
  {
    if chunks != [] {
      ScanAnnounced(buffer + chunks[0]);
      PostingsAnnounced(capacity, Feed(capacity, buffer, chunks[0]).buffer, chunks[1..]);
    }
  }

  /**
   * What a new framer does with a first read: it posts the read as one message, and keeps nothing,
   * exactly when the read is the marker, an address, a known tag, and as many bytes as belong to that tag.
   */
  lemma MessageAlone(capacity: nat, s: seq<Byte>)
    requires |s| < capacity
    ensures Feed(capacity, [], s) == Fed([], [Posting(0, |s|, s)], true, 0) <==>
            && |s| >= 3 && s[0] == 0xf9
            && (|| (s[2] == 2 && |s| == 18)
                || (s[2] == 5 && |s| == 15)
                || (s[2] == 7 && |s| == 6)
                || (s[2] in {1, 3, 4, 6} && |s| == 3))
    ensures Feed(capacity, [], s) == Fed([], [Posting(0, |s|, s)], true, 0) <==> IsFrame(s)
  {
    assert [] + s == s;
    if IsFrame(s) {
      assert MarkerAt(s, 0) && LookAt(s) == Take(0, |s|);
      assert s[|s|..] == [] && s[0..|s|] == s;
      assert Scan([]) == Scanned([], 0, 0);
      assert Scan(s) == Scanned([Posting(0, |s|, s)], |s|, 0);
    } else if LookAt(s).Take? {
      TakeBounds(s);
      assert Scan(s).posts[0].offset == LookAt(s).offset && Scan(s).posts[0].length == LookAt(s).length;
    }
  }

  /**
   * And behind the marker: the read is dropped exactly when its tag is not one of 1 to 7, and kept
   * exactly when it is shorter than a message with its tag.
   */
  lemma FirstReadFate(capacity: nat, s: seq<Byte>)
    requires 3 <= |s| < capacity && s[0] == 0xf9
    ensures Feed(capacity, [], s) == Fed([], [], true, |s|) <==> s[2] == 0 || s[2] > 7
    ensures Feed(capacity, [], s) == Fed(s, [], true, 0) <==>
            (s[2] == 2 && |s| < 18) || (s[2] == 5 && |s| < 15) || (s[2] == 7 && |s| < 6)
  {
  }

  lemma {:induction false} AdvanceAppend(a: seq<Posting>, b: seq<Posting>)
    ensures Advance(a + b) == Advance(a) + Advance(b)
  {
    if a == [] {
      assert a + b == b;
    } else {
      assert (a + b)[1..] == a[1..] + b;
      AdvanceAppend(a[1..], b);
    }
  }

  lemma {:induction false} ScanConserves(w: seq<Byte>)
    ensures Scan(w).used == Advance(Scan(w).posts) + Scan(w).dropped
    decreases |w|
  {
    if LookAt(w).Take? {
      ScanConserves(w[LookAt(w).length..]);
    }
  }

  /**
   * Over any run on any bytes, the lengths of the posted messages, the buffered bytes and the dropped
   * bytes add up to the bytes offered.
   */
  lemma {:induction false} BytesConserved(capacity: nat, buffer: seq<Byte>, chunks: seq<seq<Byte>>)
    ensures var r := FeedAll(capacity, buffer, chunks);
            |buffer| + |Flatten(chunks)| == Advance(r.posts) + |r.buffer| + r.dropped
    decreases |chunks|
  {
    if chunks != [] {
      var a := Feed(capacity, buffer, chunks[0]);
      ScanConserves(buffer + chunks[0]);
      BytesConserved(capacity, a.buffer, chunks[1..]);
      AdvanceAppend(a.posts, FeedAll(capacity, a.buffer, chunks[1..]).posts);
    }
  }

  lemma {:induction false} ScanEndsWaiting(w: seq<Byte>)
    ensures LookAt(w[Scan(w).used..]) == Wait
    decreases |w|
  {
    match LookAt(w)
    case Wait =>
      assert w[0..] == w;
    case Drop =>
    case Take(_, n) =>
      ScanEndsWaiting(w[n..]);
      assert w[n..][Scan(w[n..]).used..] == w[Scan(w).used..];
  }

  /**
   * No complete frame is left unposted: whatever was offered, offering nothing more posts nothing and
   * changes nothing.
   */
  lemma {:induction false} EmptyChunkIsNoOp(capacity: nat, buffer: seq<Byte>, chunks: seq<seq<Byte>>)
    requires capacity > 0 && chunks != []
    ensures var b := FeedAll(capacity, buffer, chunks).buffer;
            Feed(capacity, b, []) == Fed(b, [], true, 0)
    decreases |chunks|
  {
    var a := Feed(capacity, buffer, chunks[0]);
    if |chunks| == 1 {
      ScanEndsWaiting(buffer + chunks[0]);
      assert chunks[1..] == [];
      assert a.buffer + [] == a.buffer;
    } else {
      EmptyChunkIsNoOp(capacity, a.buffer, chunks[1..]);
    }
  }

  /** Over any run the buffer never fills up. */
  lemma {:induction false} BufferBelowCapacity(capacity: nat, buffer: seq<Byte>, chunks: seq<seq<Byte>>)
    requires |buffer| < capacity
    ensures |FeedAll(capacity, buffer, chunks).buffer| < capacity
    decreases |chunks|
  {
    if chunks != [] {
      BufferBelowCapacity(capacity, Feed(capacity, buffer, chunks[0]).buffer, chunks[1..]);
    }
  }

  lemma {:induction false} FeedAllAppend(capacity: nat, buffer: seq<Byte>, a: seq<seq<Byte>>, b: seq<seq<Byte>>)
    ensures var x := FeedAll(capacity, buffer, a);
            FeedAll(capacity, buffer, a + b) == Then(x, FeedAll(capacity, x.buffer, b))
    decreases |a|
  {
    if a == [] {
      assert a + b == b;
    } else {
      var f := Feed(capacity, buffer, a[0]);
      assert (a + b)[0] == a[0] && (a + b)[1..] == a[1..] + b;
      FeedAllAppend(capacity, f.buffer, a[1..], b);
      var x := FeedAll(capacity, f.buffer, a[1..]);
      ThenAssociative(f, x, FeedAll(capacity, x.buffer, b));
    }
  }

  lemma ThenAssociative(a: Fed, b: Fed, c: Fed)
    ensures Then(Then(a, b), c) == Then(a, Then(b, c))
  {
    assert a.posts + b.posts + c.posts == a.posts + (b.posts + c.posts);
  }

  lemma {:induction false} FlattenAppend(a: seq<seq<Byte>>, b: seq<seq<Byte>>)
    ensures Flatten(a + b) == Flatten(a) + Flatten(b)
  {
    if a == [] {
      assert a + b == b;
    } else {
      assert (a + b)[1..] == a[1..] + b;
      FlattenAppend(a[1..], b);
    }
  }
}
