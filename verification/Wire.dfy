/** The frames that travel over the serial link, as the framer recognises them. */
module Wire {

  /** A received byte, as its unsigned value; `Signed` gives its value as a C `char`. */
  type Byte = x: int | 0 <= x < 256

  /** The longest frame, that of an answer. */
  const LONGEST := 18

  const MSG_BEGIN: Byte := 0xf9

  /** A byte read through MSVC's signed `char`. */
  function Signed(b: Byte): (c: int)
    ensures -128 <= c <= 127 && (b - c) % 256 == 0
  {
    if b < 128 then b else b - 256
  }

  /** The length of a frame with the given tag, and 0 when the tag is unknown. */
  function FrameLength(tag: Byte): nat {
    if tag == 2 then 18
    else if tag == 5 then 15
    else if tag == 7 then 6
    else if tag == 1 || tag == 3 || tag == 4 || tag == 6 then 3
    else 0
  }

  predicate IsFrame(s: seq<Byte>) {
    |s| >= 3 && s[0] == MSG_BEGIN && |s| == FrameLength(s[2])
  }

  type Frame = s: seq<Byte> | IsFrame(s) witness [0xf9, 0, 1]

  function Serialize(fs: seq<Frame>): seq<Byte> {
    if fs == [] then [] else fs[0] + Serialize(fs[1..])
  }

  /** A well-formed stream is any prefix of a concatenation of frames. */
  ghost predicate WellFormed(w: seq<Byte>) {
    exists fs: seq<Frame> :: w <= Serialize(fs)
  }

  /** A strict prefix of some frame. */
  ghost predicate IsPartial(s: seq<Byte>) {
    exists f: Frame :: |s| < |f| && f[..|s|] == s
  }

  /** The same, read off the bytes themselves. */
  predicate Incomplete(s: seq<Byte>) {
    s == [] || (s[0] == MSG_BEGIN && (|s| < 3 || |s| < FrameLength(s[2])))
  }

  /** A frame with the given address and an answer's tag, all payload bytes zero. */
  function BlankAnswer(address: Byte): Frame {
    [MSG_BEGIN, address, 2] + seq(15, _ => 0)
  }

  lemma PartialIffIncomplete(s: seq<Byte>)
    ensures IsPartial(s) <==> Incomplete(s)
  {
    if Incomplete(s) {
      if |s| < 3 {
        var f := BlankAnswer(if |s| < 2 then 0 else s[1]);
        assert |s| < |f| && f[..|s|] == s;
      } else {
        var f: seq<Byte> := s + seq(FrameLength(s[2]) - |s|, _ => 0);
        assert IsFrame(f);
        assert |s| < |f| && f[..|s|] == s;
      }
    }
  }

  lemma {:induction false} SerializeAppend(fs: seq<Frame>, gs: seq<Frame>)
    ensures Serialize(fs + gs) == Serialize(fs) + Serialize(gs)
  {
    if fs == [] {
      assert fs + gs == gs;
    } else {
      assert (fs + gs)[1..] == fs[1..] + gs;
      SerializeAppend(fs[1..], gs);
    }
  }

  /** Cutting a frame sequence anywhere leaves whole frames and a strict prefix of the next one. */
  lemma {:induction false} CutSerialized(fs: seq<Frame>, n: nat) returns (k: nat, rest: seq<Byte>)
    requires n <= |Serialize(fs)|
    ensures k <= |fs| && Incomplete(rest)
    ensures Serialize(fs)[..n] == Serialize(fs[..k]) + rest
    ensures n == |Serialize(fs)| ==> k == |fs| && rest == []
  {
    if fs == [] {
      k, rest := 0, [];
    } else if n < |fs[0]| {
      k, rest := 0, fs[0][..n];
    } else {
      var k', rest' := CutSerialized(fs[1..], n - |fs[0]|);
      k, rest := k' + 1, rest';
      assert fs[..k][1..] == fs[1..][..k'];
      assert Serialize(fs)[..n] == fs[0] + Serialize(fs[1..])[..n - |fs[0]|];
    }
  }

  /** A stream is well-formed exactly when it is some frames followed by an incomplete one. */
  lemma WellFormedIffSplits(w: seq<Byte>)
    ensures WellFormed(w) <==>
            exists fs: seq<Frame>, rest: seq<Byte> :: w == Serialize(fs) + rest && IsPartial(rest)
  {
    if WellFormed(w) {
      var all: seq<Frame> :| w <= Serialize(all);
      var k, rest := CutSerialized(all, |w|);
      PartialIffIncomplete(rest);
      assert w == Serialize(all[..k]) + rest;
    }
    if fs: seq<Frame>, rest: seq<Byte> :| w == Serialize(fs) + rest && IsPartial(rest) {
      var f: Frame :| |rest| < |f| && f[..|rest|] == rest;
      SerializeAppend(fs, [f]);
      assert Serialize([f]) == f;
      assert w <= Serialize(fs + [f]);
    }
  }
}
