/** The incremental framer: a fixed buffer that frames are cut from as chunks arrive. */
module Framer {
  import opened Wire
  import opened Framing

  datatype Option<T> = None | Some(value: T)

  class MsgBuffer {
    const buf: array<Byte>
    const size: nat
    var len: nat
    /** Messages posted to the main window, oldest first. */
    var posted: seq<Posting>
    /** Every message so far was copied from inside the buffer. */
    ghost var contained: bool

    ghost predicate Valid()
      reads this`len
    {
      buf.Length == size && (len == 0 || len < size)
    }

    /** The bytes that are waiting for the rest of their frame. */
    ghost function Buffered(): seq<Byte>
      reads this`len, buf
      requires Valid()
    {
      buf[..len]
    }

    constructor (size: nat := 2048)
      ensures Valid() && fresh(buf)
      ensures this.size == size && Buffered() == [] && posted == [] && contained
    {
      buf := new Byte[size](_ => 0);
      this.size := size;
      len := 0;
      posted := [];
      contained := true;
    }

    /** The first marker among the `n` bytes from `from` that has two bytes after it, as an index into the buffer. */
    method GetMsgStart(from: nat, n: nat) returns (start: Option<nat>)
      requires Valid() && from + n <= buf.Length
      ensures var m := MarkerFrom(buf[from..from + n], 0);
              start == if m == n then None else Some(from + m)
    {
      ghost var w := buf[from..from + n];
      var i := 0;
      while i < n
        invariant 0 <= i <= n
        invariant MarkerFrom(w, 0) == MarkerFrom(w, i)
      {
        if buf[from + i] == 0xf9 && i + 2 < n {
          assert MarkerAt(w, i);
          return Some(from + i);
        }
        assert !MarkerAt(w, i);
        i := i + 1;
      }
      return None;
    }

    /**
     * Posts `n` bytes from `start`, which lies in the window that begins at `from`, unless the window
     * is shorter than that.  Of the bytes copied, the posting records those that have been received;
     * the copy may go on behind them, and behind the end of the buffer.
     */
    method ProcessMsg(from: nat, start: nat, window: nat, n: nat) returns (used: nat)
      requires Valid() && from <= start <= len
      modifies this`posted, this`contained
      ensures used == if n > window then 0 else n
      ensures posted == old(posted) +
                        if n > window then [] else [Posting(start - from, n, Copied(buf[from..len], start - from, n))]
      ensures contained == (old(contained) && (n > window || start + n <= buf.Length))
    {
      if n > window {
        return 0;
      }
      var data := if start + n <= len then buf[start..start + n] else buf[start..len];
      SliceOfSlice(buf[..], from, len, start, start + |data|);
      assert buf[start..start + |data|] == buf[..][start..start + |data|];
      assert buf[from..len] == buf[..][from..len];
      posted := posted + [Posting(start - from, n, data)];
      contained := contained && start + n <= buf.Length;
      return n;
    }

    /** Looks once at the window of `n` bytes from `from`: the bytes taken, 0 to wait, -1 to drop. */
    method GetMsgOne(from: nat, n: nat) returns (used: int)
      requires Valid() && from + n == len
      modifies this`posted, this`contained
      ensures used == Verdict(buf[from..len]) && posted == old(posted) + Emitted(buf[from..len])
      ensures Decided(buf[from..len], used)
      ensures contained == (old(contained) && Contained(size, from, Emitted(buf[from..len])))
    {
      ghost var w := buf[from..len];
      assert w == buf[from..from + n];
      var start := GetMsgStart(from, n);
      if start.None? {
        NothingToTake(w);
        return 0;
      }
      ghost var m := start.value - from;
      assert buf[start.value + 2] == w[m + 2];
      MarkerDecides(w, m, size, from);
      used := PostTagged(from, start.value, n);
      assert buf[from..len] == w;
    }

    /** The switch on the tag of the message at `start`. */
    method PostTagged(from: nat, start: nat, n: nat) returns (used: int)
      requires Valid() && from <= start && start + 2 < len == from + n
      modifies this`posted, this`contained
      ensures var m := FrameLength(buf[start + 2]);
              && used == (if m == 0 then -1 else if m > n then 0 else m)
              && posted == old(posted) + (if used <= 0 then []
                                          else [Posting(start - from, m, Copied(buf[from..len], start - from, m))])
              && contained == (old(contained) && (used <= 0 || start + m <= size))
    {
      var tag := buf[start + 2];
      if tag == 2 {
        used := ProcessMsg(from, start, n, 18);
      } else if tag == 5 {
        used := ProcessMsg(from, start, n, 15);
      } else if tag == 4 || tag == 6 || tag == 1 || tag == 3 {
        used := ProcessMsg(from, start, n, 3);
      } else if tag == 7 {
        used := ProcessMsg(from, start, n, 6);
      } else {
        used := -1;
      }
    }

    /** The loop that posts messages; `cuts` are the places at which it looked. */
    method CutMessages() returns (used: nat, ghost cuts: seq<nat>, ghost done: seq<Posting>)
      requires Valid()
      modifies this`posted, this`contained
      ensures posted == old(posted) + done && contained == (old(contained) && Contained(size, 0, done))
      ensures Chain(Buffered(), cuts, done) && EndsAt(Buffered(), cuts[|done|], used)
    {
      var ret := 0;
      ghost var w := Buffered();
      cuts, done := [0], [];
      while true
        invariant w == Buffered() && ret <= len
        invariant Chain(w, cuts, done) && cuts[|done|] == ret == Advance(done)
        invariant posted == old(posted) + done
        invariant contained == (old(contained) && Contained(size, 0, done))
        decreases len - ret
      {
        ghost var v := w[ret..];
        assert buf[ret..len] == v;
        var err := GetMsgOne(ret, len - ret);
        VerdictMeans(v);
        if err < 0 {
          return len, cuts, done;
        }
        if err == 0 {
          return ret, cuts, done;
        }
        ghost var p := Taken(v);
        ChainGrows(w, cuts, done, ret + err, p);
        ContainedSnoc(size, 0, done, p);
        assert Contained(size, ret, [p]) <==> ret + p.offset + p.length <= size;
        cuts, done := cuts + [ret + err], done + [p];
        ret := ret + err;
      }
    }

    /** Posts every message the buffer holds and returns how many bytes are done with. */
    method GetMsg() returns (used: nat)
      requires Valid()
      modifies this`posted, this`contained
      ensures used == Scan(Buffered()).used
      ensures posted == old(posted) + Scan(Buffered()).posts
      ensures contained == (old(contained) && Contained(size, 0, Scan(Buffered()).posts))
    {
      ghost var cuts, done;
      used, cuts, done := CutMessages();
      ChainScans(Buffered(), cuts, done, used);
    }

    /** memcpy of the chunk behind the buffered bytes. */
    method Append(chunk: seq<Byte>)
      requires Valid() && len + |chunk| < size
      modifies `len, buf
      ensures Valid() && Buffered() == old(Buffered()) + chunk
    {
      forall i | 0 <= i < |chunk| {
        buf[len + i] := chunk[i];
      }
      assert buf[..len + |chunk|] == old(Buffered()) + chunk;
      len := len + |chunk|;
    }

    /** memmove of the bytes behind the first `used` ones to the front. */
    method Discard(used: nat)
      requires Valid() && used <= len
      modifies `len, buf
      ensures Valid() && Buffered() == old(Buffered())[used..]
    {
      len := len - used;
      forall i | 0 <= i < len {
        buf[i] := buf[used + i];
      }
    }

    /** Appends a chunk, posts what it completes and moves the rest to the front. */
    method AddInput(chunk: seq<Byte>) returns (ok: bool)
      requires Valid()
      modifies this, buf
      ensures Valid()
      ensures var fed := Feed(size, old(Buffered()), chunk);
              && ok == fed.ok && Buffered() == fed.buffer && posted == old(posted) + fed.posts
              && contained == (old(contained) && Contained(size, 0, fed.posts))
      ensures forall p :: p in posted[|old(posted)|..] ==>
                && 3 <= |p.data| <= p.length && p.data[0] == 0xf9
                && (|| (p.data[2] == 2 && p.length == 18)
                    || (p.data[2] == 5 && p.length == 15)
                    || (p.data[2] == 7 && p.length == 6)
                    || (p.data[2] in {1, 3, 4, 6} && p.length == 3))
    {
      if len + |chunk| >= size {
        len := 0;
        return false;
      }
      Append(chunk);
      ScanAnnounced(Buffered());
      var used := GetMsg();
      assert posted[|old(posted)|..] == Scan(Buffered()).posts;
      if used == 0 {
        return true;
      }
      Discard(used);
      return true;
    }
  }

  lemma SliceOfSlice(s: seq<Byte>, from: nat, to: nat, i: nat, j: nat)
    requires from <= i <= j <= to <= |s|
    ensures s[from..to][i - from..j - from] == s[i..j]
  {
    forall k | 0 <= k < j - i
      ensures s[from..to][i - from..j - from][k] == s[i..j][k]
    {
      assert s[from..to][i - from + k] == s[i + k];
    }
  }

  lemma {:induction false} ContainedSnoc(capacity: nat, from: nat, posts: seq<Posting>, p: Posting)
    ensures Advance(posts + [p]) == Advance(posts) + p.length
    ensures Contained(capacity, from, posts + [p]) <==>
            Contained(capacity, from, posts) && from + Advance(posts) + p.offset + p.length <= capacity
    decreases |posts|
  {
    if posts == [] {
      assert posts + [p] == [p];
    } else {
      assert (posts + [p])[1..] == posts[1..] + [p];
      ContainedSnoc(capacity, from + posts[0].length, posts[1..], p);
    }
  }

  /** The posting that a window whose frame is complete gives rise to. */
  function Taken(v: seq<Byte>): (p: Posting)
    requires LookAt(v).Take?
    ensures p.length <= |v|
  {
    var Take(offset, n) := LookAt(v);
    Posting(offset, n, Copied(v, offset, n))
  }

  /** What a look at a window returns: the bytes taken, 0 to wait, -1 to drop. */
  function Verdict(v: seq<Byte>): (r: int)
    ensures r <= |v|
  {
    match LookAt(v)
    case Wait => 0
    case Drop => -1
    case Take(_, n) => n
  }

  /** And what it posts. */
  function Emitted(v: seq<Byte>): seq<Posting> {
    if LookAt(v).Take? then [Taken(v)] else []
  }

  /** The result of a look at a window, by its first marker and the tag behind that. */
  ghost predicate Decided(v: seq<Byte>, used: int) {
    var m := MarkerFrom(v, 0);
    && used in {-1, 0, 3, 6, 15, 18}
    && (m == |v| ==> used == 0)
    && (m < |v| ==>
          var tag := v[m + 2];
          && (used == -1 <==> tag == 0 || tag > 7)
          && (used == 18 <==> tag == 2 && |v| >= 18)
          && (used == 15 <==> tag == 5 && |v| >= 15)
          && (used == 6 <==> tag == 7 && |v| >= 6)
          && (used == 3 <==> tag in {1, 3, 4, 6}))
  }

  lemma NothingToTake(v: seq<Byte>)
    requires MarkerFrom(v, 0) == |v|
    ensures Verdict(v) == 0 && Emitted(v) == [] && Decided(v, 0)
  {
  }

  lemma MarkerDecides(v: seq<Byte>, m: nat, capacity: nat, from: nat)
    requires m == MarkerFrom(v, 0) < |v|
    ensures var n := FrameLength(v[m + 2]);
            && Verdict(v) == (if n == 0 then -1 else if n > |v| then 0 else n)
            && Emitted(v) == (if Verdict(v) <= 0 then [] else [Posting(m, n, Copied(v, m, n))])
            && (Contained(capacity, from, Emitted(v)) <==> Verdict(v) <= 0 || from + m + n <= capacity)
    ensures Decided(v, Verdict(v))
  {
  }

  lemma VerdictMeans(v: seq<Byte>)
    ensures Verdict(v) > 0 <==> LookAt(v).Take?
    ensures Verdict(v) > 0 ==> Emitted(v) == [Taken(v)] && Taken(v).length == Verdict(v)
    ensures Verdict(v) <= 0 ==> Emitted(v) == []
  {
  }

  /** Looking at `w` from `a` on gives the posting `p` and goes on at `b`. */
  ghost predicate CutAt(w: seq<Byte>, a: nat, b: nat, p: Posting) {
    a < b <= |w| && Verdict(w[a..]) == b - a && Emitted(w[a..]) == [p]
  }

  /** Looking at `w` from `a` on ends the loop, with `used` bytes done with. */
  ghost predicate EndsAt(w: seq<Byte>, a: nat, used: nat) {
    a <= |w| && Verdict(w[a..]) <= 0 && used == if Verdict(w[a..]) == 0 then a else |w|
  }

  /** Looking at `w` from each cut on gives the next posting and goes on at the next cut. */
  ghost predicate Chain(w: seq<Byte>, cuts: seq<nat>, done: seq<Posting>) {
    && |cuts| == |done| + 1 && cuts[0] == 0
    && forall k {:trigger CutAt(w, cuts[k], cuts[k + 1], done[k])} ::
         0 <= k < |done| ==> CutAt(w, cuts[k], cuts[k + 1], done[k])
  }

  lemma ChainGrows(w: seq<Byte>, cuts: seq<nat>, done: seq<Posting>, b: nat, p: Posting)
    requires Chain(w, cuts, done) && CutAt(w, cuts[|done|], b, p)
    ensures Chain(w, cuts + [b], done + [p])
  {
    forall k | 0 <= k < |done + [p]|
      ensures CutAt(w, (cuts + [b])[k], (cuts + [b])[k + 1], (done + [p])[k])
    {
      if k < |done| {
        assert CutAt(w, cuts[k], cuts[k + 1], done[k]);
      }
    }
  }

  lemma {:induction false} ScanTaken(v: seq<Byte>, n: nat, p: Posting, rest: seq<Byte>)
    requires 0 < n <= |v| && Verdict(v) == n && Emitted(v) == [p] && rest == v[n..]
    ensures Scan(v).posts == [p] + Scan(rest).posts && Scan(v).used == n + Scan(rest).used
  {
    VerdictMeans(v);
  }

  lemma ScanEnd(w: seq<Byte>, a: nat, used: nat)
    requires EndsAt(w, a, used)
    ensures ScanFrom(w, a, used, [])
  {
    VerdictMeans(w[a..]);
  }

  /** The scan from a cut on, put together from the end. */
  ghost predicate ScanFrom(w: seq<Byte>, a: nat, used: nat, posts: seq<Posting>) {
    a <= used && a <= |w| && Scan(w[a..]).posts == posts && Scan(w[a..]).used == used - a
  }

  lemma {:induction false} ScanCut(w: seq<Byte>, a: nat, b: nat, p: Posting, used: nat, posts: seq<Posting>)
    requires CutAt(w, a, b, p) && ScanFrom(w, b, used, posts)
    ensures ScanFrom(w, a, used, [p] + posts)
  {
    assert w[a..][b - a..] == w[b..];
    ScanTaken(w[a..], b - a, p, w[b..]);
  }

  lemma {:induction false} ChainScansFrom(w: seq<Byte>, cuts: seq<nat>, done: seq<Posting>, used: nat, k: nat)
    requires Chain(w, cuts, done) && EndsAt(w, cuts[|done|], used) && k <= |done|
    ensures ScanFrom(w, cuts[k], used, done[k..])
    decreases |done| - k
  {
    if k == |done| {
      ScanEnd(w, cuts[k], used);
      assert done[k..] == [];
    } else {
      ChainScansFrom(w, cuts, done, used, k + 1);
      assert CutAt(w, cuts[k], cuts[k + 1], done[k]);
      ScanCut(w, cuts[k], cuts[k + 1], done[k], used, done[k + 1..]);
      assert done[k..] == [done[k]] + done[k + 1..];
    }
  }

  /** So the loop does what the scan says. */
  lemma ChainScans(w: seq<Byte>, cuts: seq<nat>, done: seq<Posting>, used: nat)
    requires Chain(w, cuts, done) && EndsAt(w, cuts[|done|], used)
    ensures Scan(w).posts == done && Scan(w).used == used
  {
    ChainScansFrom(w, cuts, done, used, 0);
    assert w[0..] == w && done[0..] == done;
  }

  /** The framer after `fed`, when `before` had been posted at the start. */
  ghost predicate HasFed(b: MsgBuffer, before: seq<Posting>, fed: Fed)
    reads b, b.buf
  {
    b.Valid() && b.Buffered() == fed.buffer && b.posted == before + fed.posts
  }

  method ReadOne(b: MsgBuffer, input: seq<Byte>, ghost before: seq<Posting>, ghost fed: Fed) returns (ok: bool)
    requires HasFed(b, before, fed)
    modifies b, b.buf
    ensures var f := Feed(b.size, fed.buffer, input);
            && ok == f.ok && HasFed(b, before, Then(fed, f))
            && b.contained == (old(b.contained) && Contained(b.size, 0, f.posts))
  {
    ok := b.AddInput(input);
  }

  /** The reader thread hands the framer one read after another. */
  method ReadLoop(b: MsgBuffer, inputs: seq<seq<Byte>>) returns (ok: bool)
    requires b.Valid()
    modifies b, b.buf
    ensures var fed := FeedAll(b.size, old(b.Buffered()), inputs);
            ok == fed.ok && HasFed(b, old(b.posted), fed)
    ensures b.contained == (old(b.contained) && AllContained(b.size, old(b.Buffered()), inputs))
  {
    ok := true;
    var i := 0;
    ghost var start := b.Buffered();
    ghost var fed := Fed(start, [], true, 0);
    while i < |inputs|
      invariant 0 <= i <= |inputs|
      invariant fed == FeedAll(b.size, start, inputs[..i])
      invariant ok == fed.ok && HasFed(b, old(b.posted), fed)
      invariant b.contained == (old(b.contained) && AllContained(b.size, start, inputs[..i]))
    {
      FeedAllSnoc(b.size, start, inputs, i);
      AllContainedNext(b.size, start, inputs, i);
      var done := ReadOne(b, inputs[i], old(b.posted), fed);
      fed := Then(fed, Feed(b.size, fed.buffer, inputs[i]));
      ok := ok && done;
      i := i + 1;
    }
    assert inputs[..i] == inputs;
  }

  lemma {:induction false} AllContainedSnoc(capacity: nat, buffer: seq<Byte>, chunks: seq<seq<Byte>>, c: seq<Byte>)
    ensures AllContained(capacity, buffer, chunks + [c]) <==>
            && AllContained(capacity, buffer, chunks)
            && Contained(capacity, 0, Feed(capacity, FeedAll(capacity, buffer, chunks).buffer, c).posts)
    decreases |chunks|
  {
    if chunks == [] {
      assert chunks + [c] == [c];
    } else {
      assert (chunks + [c])[1..] == chunks[1..] + [c];
      AllContainedSnoc(capacity, Feed(capacity, buffer, chunks[0]).buffer, chunks[1..], c);
    }
  }

  lemma AllContainedNext(capacity: nat, buffer: seq<Byte>, inputs: seq<seq<Byte>>, i: nat)
    requires i < |inputs|
    ensures AllContained(capacity, buffer, inputs[..i + 1]) <==>
            && AllContained(capacity, buffer, inputs[..i])
            && Contained(capacity, 0, Feed(capacity, FeedAll(capacity, buffer, inputs[..i]).buffer, inputs[i]).posts)
  {
    AllContainedSnoc(capacity, buffer, inputs[..i], inputs[i]);
    assert inputs[..i + 1] == inputs[..i] + [inputs[i]];
  }

  lemma FeedAllSnoc(capacity: nat, buffer: seq<Byte>, inputs: seq<seq<Byte>>, i: nat)
    requires i < |inputs|
    ensures var x := FeedAll(capacity, buffer, inputs[..i]);
            FeedAll(capacity, buffer, inputs[..i + 1]) == Then(x, Feed(capacity, x.buffer, inputs[i]))
  {
    var x := FeedAll(capacity, buffer, inputs[..i]);
    assert inputs[..i + 1] == inputs[..i] + [inputs[i]];
    FeedAllAppend(capacity, buffer, inputs[..i], [inputs[i]]);
    var f := Feed(capacity, x.buffer, inputs[i]);
    assert FeedAll(capacity, x.buffer, [inputs[i]]) == Then(f, FeedAll(capacity, f.buffer, []));
    assert Then(f, FeedAll(capacity, f.buffer, [])) == f;
  }
}
