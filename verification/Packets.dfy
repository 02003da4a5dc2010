/** Decoding the payload of attendance and answer frames. */
module Packets {
  import opened Wire

  /** What an attendance frame says: card id, battery level, and whether the check byte agrees. */
  datatype CheckPacket = CheckPacket(id: string, charge: nat, sound: bool)

  /** A C `char` holding the low byte of `x`. */
  function ToChar(x: int): int {
    var low := x % 256;
    if low < 128 then low else low - 256
  }

  /** An id byte as it is displayed: a digit, or F for anything else. */
  function IdChar(b: Byte): char {
    if b <= 9 then "0123456789"[b] else 'F'
  }

  function IdOf(bytes: seq<Byte>): (id: string)
    ensures |id| == |bytes|
    ensures forall i :: 0 <= i < |id| ==> id[i] == IdChar(bytes[i])
  {
    seq(|bytes|, i requires 0 <= i < |bytes| => IdChar(bytes[i]))
  }

  /** The character that the id loop makes of a byte. */
  function LoopChar(b: Byte): char {
    var c := ToChar('0' as int + Signed(b));
    if '0' as int <= c <= '9' as int then c as char else 'F'
  }

  lemma LoopCharIsIdChar(b: Byte)
    ensures LoopChar(b) == IdChar(b)
  {
    if b <= 9 {
      assert "0123456789"[b] as int == '0' as int + b;
    }
  }

  lemma IdSnoc(bytes: seq<Byte>, i: nat)
    requires i < |bytes|
    ensures IdOf(bytes[..i + 1]) == IdOf(bytes[..i]) + [IdChar(bytes[i])]
  {
  }

  /** The sum of bytes read as signed characters, without wrap-around. */
  function SignedSum(bytes: seq<Byte>): int {
    if bytes == [] then 0 else SignedSum(bytes[..|bytes| - 1]) + Signed(bytes[|bytes| - 1])
  }

  function PlainSum(bytes: seq<Byte>): nat {
    if bytes == [] then 0 else PlainSum(bytes[..|bytes| - 1]) + bytes[|bytes| - 1]
  }

  /** A battery level is 0 to 5; anything else shows as 6. */
  function Charge(b: Byte): nat {
    if b <= 5 then b else 6
  }

  /** Address and tag, ten id bytes, the battery level, the check byte. */
  function CheckPacketOf(msg: seq<Byte>): CheckPacket
    requires |msg| >= 15
  {
    CheckPacket(IdOf(msg[3..13]), Charge(msg[13]), Signed(msg[14]) == SignedSum(msg[3..13]))
  }

  lemma {:induction false} SumOfTen(bytes: seq<Byte>)
    requires |bytes| == 10
    ensures SignedSum(bytes) ==
            Signed(bytes[0]) + Signed(bytes[1]) + Signed(bytes[2]) + Signed(bytes[3]) + Signed(bytes[4]) +
            Signed(bytes[5]) + Signed(bytes[6]) + Signed(bytes[7]) + Signed(bytes[8]) + Signed(bytes[9])
  {
    SumOfFive(bytes, 0);
    SumOfFive(bytes, 5);
    assert bytes[..10] == bytes && bytes[..0] == [];
  }

  lemma {:induction false} SumOfFive(bytes: seq<Byte>, n: nat)
    requires n + 5 <= |bytes|
    ensures SignedSum(bytes[..n + 5]) ==
            SignedSum(bytes[..n]) + Signed(bytes[n]) + Signed(bytes[n + 1]) + Signed(bytes[n + 2]) +
            Signed(bytes[n + 3]) + Signed(bytes[n + 4])
  {
    SumSnoc(bytes, n);
    SumSnoc(bytes, n + 1);
    SumSnoc(bytes, n + 2);
    SumSnoc(bytes, n + 3);
    SumSnoc(bytes, n + 4);
  }

  lemma {:induction false} SumSnoc(bytes: seq<Byte>, k: nat)
    requires k < |bytes|
    ensures SignedSum(bytes[..k + 1]) == SignedSum(bytes[..k]) + Signed(bytes[k])
  {
    assert bytes[..k + 1][..k] == bytes[..k];
  }

  /**
   * The ten id bytes as shown: a byte of 0 to 9 as that digit, any other as F; the id depends on
   * nothing else.
   */
  lemma IdShown(msg: seq<Byte>)
    requires |msg| >= 13
    ensures var id := IdOf(msg[3..13]);
            && |id| == 10
            && forall i :: 0 <= i < 10 ==>
                 id[i] == if msg[3 + i] <= 9 then ('0' as int + msg[3 + i]) as char else 'F'
  {
    forall i | 0 <= i < 10
      ensures IdOf(msg[3..13])[i] == if msg[3 + i] <= 9 then ('0' as int + msg[3 + i]) as char else 'F'
    {
      assert msg[3..13][i] == msg[3 + i];
      LoopCharIsIdChar(msg[3 + i]);
    }
  }

  /** The id and checksum loop over the payload of an attendance frame. */
  method ReadCheckPacket(msg: seq<Byte>) returns (p: CheckPacket)
    requires |msg| >= 15
    ensures p == CheckPacketOf(msg)
    ensures |p.id| == 10
    ensures forall i :: 0 <= i < 10 ==>
              p.id[i] == if msg[3 + i] <= 9 then ('0' as int + msg[3 + i]) as char else 'F'
    ensures p.charge == 6 <==> msg[13] > 5
    ensures p.charge < 6 ==> p.charge == msg[13]
    ensures p.charge <= 6
    ensures p.sound <==>
            Signed(msg[14]) ==
            Signed(msg[3]) + Signed(msg[4]) + Signed(msg[5]) + Signed(msg[6]) + Signed(msg[7]) +
            Signed(msg[8]) + Signed(msg[9]) + Signed(msg[10]) + Signed(msg[11]) + Signed(msg[12])
  {
    IdShown(msg);
    SumOfTen(msg[3..13]);
    var id := "";
    var checkcode := 0;
    ghost var ids := msg[3..13];
    for i := 0 to 10
      invariant id == IdOf(ids[..i])
      invariant checkcode == SignedSum(ids[..i])
    {
      assert ids[..i + 1][..i] == ids[..i];
      checkcode := checkcode + Signed(msg[3 + i]);
      LoopCharIsIdChar(msg[3 + i]);
      IdSnoc(ids, i);
      id := id + [LoopChar(msg[3 + i])];
    }
    assert ids[..10] == ids;
    var charge := Signed(msg[13]);
    if charge > 5 {
      charge := 6;
    }
    if charge < 0 {
      charge := 6;
    }
    p := CheckPacket(id, charge, Signed(msg[14]) == checkcode);
  }

  // ---- The check byte ----

  predicate AllDigits(bytes: seq<Byte>) {
    forall i :: 0 <= i < |bytes| ==> bytes[i] <= 9
  }

  lemma {:induction false} SumOfDigits(bytes: seq<Byte>)
    requires AllDigits(bytes)
    ensures SignedSum(bytes) == PlainSum(bytes) <= 9 * |bytes|
  {
    if bytes != [] {
      SumOfDigits(bytes[..|bytes| - 1]);
    }
  }

  /** With digits for an id, a packet is sound exactly when its check byte is the plain sum, which is at most 90. */
  lemma DigitsSoundIff(msg: seq<Byte>)
    requires |msg| >= 15 && AllDigits(msg[3..13])
    ensures CheckPacketOf(msg).sound <==> msg[14] == PlainSum(msg[3..13])
    ensures PlainSum(msg[3..13]) <= 90
  {
    SumOfDigits(msg[3..13]);
  }

  lemma {:induction false} SumsAgreeModulo(bytes: seq<Byte>)
    ensures (PlainSum(bytes) - SignedSum(bytes)) % 256 == 0
  {
    if bytes != [] {
      SumsAgreeModulo(bytes[..|bytes| - 1]);
    }
  }

  /**
   * The sum is compared without truncating it to a byte.  A sender that truncates its sum is
   * understood exactly when the signed sum happens to fit in a character.
   */
  lemma TruncatedSumSoundIff(msg: seq<Byte>)
    requires |msg| >= 15 && msg[14] == PlainSum(msg[3..13]) % 256
    ensures CheckPacketOf(msg).sound <==> -128 <= SignedSum(msg[3..13]) <= 127
  {
    SumsAgreeModulo(msg[3..13]);
    LowByteIff(PlainSum(msg[3..13]), SignedSum(msg[3..13]));
  }

  /** The low byte of `p`, read as a character, is `s` exactly when `s` fits in one. */
  lemma LowByteIff(p: nat, s: int)
    requires (p - s) % 256 == 0
    ensures Signed(p % 256) == s <==> -128 <= s <= 127
  {
    var k := (p - s) / 256;
    assert p == s + 256 * k;
    assert p % 256 == s % 256;
  }

  /** Ten id bytes of 13 sum to 130, which no check byte matches. */
  lemma TruncatedSumCanFail()
    ensures var msg := [MSG_BEGIN, 0, 5] + seq(10, _ => 13) + [0, 130];
            && IsFrame(msg)
            && msg[14] == PlainSum(msg[3..13]) % 256
            && !CheckPacketOf(msg).sound
  {
    var msg: seq<Byte> := [MSG_BEGIN, 0, 5] + seq(10, _ => 13) + [0, 130];
    SumOfConstant(13, 10);
    assert msg[3..13] == seq(10, _ => 13);
    SumsAgreeModulo(msg[3..13]);
  }

  lemma {:induction false} SumOfConstant(b: Byte, n: nat)
    requires b < 128
    ensures PlainSum(seq(n, _ => b)) == SignedSum(seq(n, _ => b)) == n * b
  {
    if n > 0 {
      assert seq(n, _ => b)[..n - 1] == seq(n - 1, _ => b);
      SumOfConstant(b, n - 1);
    }
  }

  lemma {:induction false} SumOfUpdate(bytes: seq<Byte>, i: nat, b: Byte)
    requires i < |bytes|
    ensures SignedSum(bytes[i := b]) == SignedSum(bytes) - Signed(bytes[i]) + Signed(b)
  {
    var n := |bytes| - 1;
    if i < n {
      assert bytes[i := b][..n] == bytes[..n][i := b];
      SumOfUpdate(bytes[..n], i, b);
    } else {
      assert bytes[i := b][..n] == bytes[..n];
    }
  }

  /** Any error in a single id byte or in the check byte is noticed. */
  lemma SingleErrorDetected(msg: seq<Byte>, i: nat, b: Byte)
    requires |msg| >= 15 && CheckPacketOf(msg).sound
    requires (3 <= i < 13 || i == 14) && b != msg[i]
    ensures !CheckPacketOf(msg[i := b]).sound
  {
    if i < 13 {
      assert msg[i := b][3..13] == msg[3..13][i - 3 := b];
      SumOfUpdate(msg[3..13], i - 3, b);
    } else {
      assert msg[i := b][3..13] == msg[3..13];
    }
  }

  /** Two packets go to the same card exactly when their ids agree digit by digit and differ only among non-digits. */
  lemma SameIdIff(a: seq<Byte>, b: seq<Byte>)
    requires |a| >= 15 && |b| >= 15
    ensures CheckPacketOf(a).id == CheckPacketOf(b).id <==>
            forall i :: 3 <= i < 13 ==> a[i] == b[i] || (a[i] > 9 && b[i] > 9)
  {
    var x, y := IdOf(a[3..13]), IdOf(b[3..13]);
    if x == y {
      forall i | 3 <= i < 13
        ensures a[i] == b[i] || (a[i] > 9 && b[i] > 9)
      {
        assert x[i - 3] == y[i - 3];
        IdCharInjective(a[i], b[i]);
      }
    }
    if forall i :: 3 <= i < 13 ==> a[i] == b[i] || (a[i] > 9 && b[i] > 9) {
      forall i | 0 <= i < 10
        ensures x[i] == y[i]
      {
        assert a[i + 3] == b[i + 3] || (a[i + 3] > 9 && b[i + 3] > 9);
      }
    }
  }

  lemma IdCharInjective(a: Byte, b: Byte)
    ensures IdChar(a) == IdChar(b) <==> a == b || (a > 9 && b > 9)
  {
    assert "0123456789"[0] == '0' && "0123456789"[1] == '1' && "0123456789"[2] == '2' && "0123456789"[3] == '3';
    assert "0123456789"[4] == '4' && "0123456789"[5] == '5' && "0123456789"[6] == '6' && "0123456789"[7] == '7';
    assert "0123456789"[8] == '8' && "0123456789"[9] == '9';
  }

  // ---- Answers ----

  /** The answer bytes of a frame as nibbles, high nibble first. */
  function NibbleAt(bytes: seq<Byte>, i: nat): (n: nat)
    requires i < 2 * |bytes|
    ensures n < 16
  {
    if i % 2 == 0 then bytes[i / 2] / 16 else bytes[i / 2] % 16
  }

  /** A for 10 up to F for 15. */
  function Letter(n: nat): char
    requires 10 <= n < 16
  {
    "ABCDEF"[n - 10]
  }

  /** The letters that the nibbles from `i` on stand for, up to the first one that stands for none. */
  function Letters(bytes: seq<Byte>, i: nat): string
    requires i <= 2 * |bytes|
    decreases 2 * |bytes| - i
  {
    if i == 2 * |bytes| || NibbleAt(bytes, i) < 10 then "" else [Letter(NibbleAt(bytes, i))] + Letters(bytes, i + 1)
  }

  function AnswerText(bytes: seq<Byte>): string
    requires |bytes| == 4
  {
    if bytes[0] == 1 then "yes"
    else if bytes[0] == 2 then "no"
    else Letters(bytes, 0)
  }

  /** A nibble as the decoder turns it into a character: below A when it stands for no letter. */
  function NibbleChar(n: nat): int
    requires n < 16
  {
    ToChar(n - 10 + 'A' as int)
  }

  /** The test for a letter that the decoder applies to it. */
  predicate IsAlpha(c: int) {
    'A' as int <= c <= 'Z' as int || 'a' as int <= c <= 'z' as int
  }

  lemma NibbleCharIsLetter(n: nat)
    requires n < 16
    ensures IsAlpha(NibbleChar(n)) <==> n >= 10
    ensures n >= 10 ==> NibbleChar(n) as char == Letter(n)
  {
  }

  /** The decoding loop of an answer: two nibbles a turn, left at the first that is no letter. */
  method ReadAnswer(bytes: seq<Byte>) returns (text: string)
    requires |bytes| == 4
    ensures text == AnswerText(bytes)
    ensures text == "yes" <==> bytes[0] == 1
    ensures text == "no" <==> bytes[0] == 2
    ensures bytes[0] != 1 && bytes[0] != 2 ==> Spells(bytes, 0, text)
  {
    if bytes[0] == 1 {
      return "yes";
    }
    if bytes[0] == 2 {
      return "no";
    }
    text := "";
    for i := 0 to 4
      invariant Letters(bytes, 0) == text + Letters(bytes, 2 * i)
    {
      var high, low := bytes[i] / 16, bytes[i] % 16;
      assert NibbleAt(bytes, 2 * i) == high && NibbleAt(bytes, 2 * i + 1) == low;
      NibbleCharIsLetter(high);
      NibbleCharIsLetter(low);
      LettersStep(bytes, 2 * i, text);
      if !IsAlpha(NibbleChar(high)) {
        break;
      }
      text := text + [NibbleChar(high) as char];
      LettersStep(bytes, 2 * i + 1, text);
      if !IsAlpha(NibbleChar(low)) {
        break;
      }
      text := text + [NibbleChar(low) as char];
    }
    ReservedAnswers(bytes);
  }

  lemma LettersStep(bytes: seq<Byte>, i: nat, text: string)
    requires i < 2 * |bytes|
    ensures var n := NibbleAt(bytes, i);
            text + Letters(bytes, i) == if n < 10 then text else text + [Letter(n)] + Letters(bytes, i + 1)
  {
    if NibbleAt(bytes, i) >= 10 {
      var c := [Letter(NibbleAt(bytes, i))];
      assert text + (c + Letters(bytes, i + 1)) == text + c + Letters(bytes, i + 1);
    }
  }

  /** Half a byte, the high half at even places, is at least 10 and `c` is the letter it stands for. */
  predicate HalfSpells(bytes: seq<Byte>, j: nat, c: char)
    requires j < 2 * |bytes|
  {
    var half := if j % 2 == 0 then bytes[j / 2] / 16 else bytes[j / 2] % 16;
    half >= 10 && c as int == half - 10 + 'A' as int
  }

  /** `text` is the longest run of letters that half bytes stand for, from half byte `i` on. */
  ghost predicate Spells(bytes: seq<Byte>, i: nat, text: string) {
    && i + |text| <= 2 * |bytes|
    && (forall j :: 0 <= j < |text| ==> HalfSpells(bytes, i + j, text[j]))
    && (i + |text| < 2 * |bytes| ==>
          var j := i + |text|; (if j % 2 == 0 then bytes[j / 2] / 16 else bytes[j / 2] % 16) < 10)
  }

  /** The decoder returns the longest prefix of half bytes that stand for letters. */
  lemma {:induction false} LettersArePrefix(bytes: seq<Byte>, i: nat)
    requires i <= 2 * |bytes|
    ensures Spells(bytes, i, Letters(bytes, i))
    decreases 2 * |bytes| - i
  {
    if i < 2 * |bytes| && 10 <= NibbleAt(bytes, i) {
      LettersArePrefix(bytes, i + 1);
      var more, text := Letters(bytes, i + 1), Letters(bytes, i);
      assert text == [Letter(NibbleAt(bytes, i))] + more;
      NibbleCharIsLetter(NibbleAt(bytes, i));
      forall j | 0 <= j < |text|
        ensures HalfSpells(bytes, i + j, text[j])
      {
        if j > 0 {
          assert HalfSpells(bytes, i + 1 + (j - 1), more[j - 1]);
        }
      }
    }
  }

  /** The two reserved payloads and their texts, which no other payload has. */
  lemma ReservedAnswers(bytes: seq<Byte>)
    requires |bytes| == 4
    ensures AnswerText(bytes) == "yes" <==> bytes[0] == 1
    ensures AnswerText(bytes) == "no" <==> bytes[0] == 2
    ensures bytes[0] != 1 && bytes[0] != 2 ==> Spells(bytes, 0, AnswerText(bytes))
  {
    if bytes[0] != 1 && bytes[0] != 2 {
      AnswerTextCanonical(bytes);
    }
    assert "yes"[0] == 'y' && "no"[0] == 'n';
  }

  predicate IsAnswerWord(word: string) {
    |word| <= 8 && forall i :: 0 <= i < |word| ==> 'A' <= word[i] <= 'F'
  }

  /** The nibble that stands for the letter at `i`, and 0 behind the end of the word. */
  function PackedNibble(word: string, i: nat): (n: nat)
    requires IsAnswerWord(word)
    ensures n < 16
  {
    if i < |word| then word[i] as int - 'A' as int + 10 else 0
  }

  /** Two letters to a byte, first letter in the high nibble. */
  function Pack(word: string): (bytes: seq<Byte>)
    requires IsAnswerWord(word)
    ensures |bytes| == 4
  {
    seq(4, i requires 0 <= i < 4 => 16 * PackedNibble(word, 2 * i) + PackedNibble(word, 2 * i + 1))
  }

  lemma PackedNibbles(word: string, i: nat)
    requires IsAnswerWord(word) && i < 8
    ensures NibbleAt(Pack(word), i) == PackedNibble(word, i)
  {
  }

  lemma {:induction false} PackedLetters(word: string, i: nat)
    requires IsAnswerWord(word) && i <= |word|
    ensures Letters(Pack(word), i) == word[i..]
    decreases |word| - i
  {
    if i == 8 {
      assert word[i..] == "";
    } else {
      PackedNibbles(word, i);
      if i < |word| {
        PackedLetter(word, i);
        PackedLetters(word, i + 1);
        assert word[i..] == [word[i]] + word[i + 1..];
      }
    }
  }

  lemma PackedLetter(word: string, i: nat)
    requires IsAnswerWord(word) && i < |word|
    ensures 10 <= PackedNibble(word, i) && Letter(PackedNibble(word, i)) == word[i]
  {
    assert "ABCDEF"[PackedNibble(word, i) - 10] as int == 'A' as int + PackedNibble(word, i) - 10;
  }

  /** Every word over A to F of at most eight letters survives packing and decoding. */
  lemma AnswerRoundTrip(word: string)
    requires IsAnswerWord(word)
    ensures AnswerText(Pack(word)) == word
  {
    PackedNibbles(word, 0);
    PackedLetters(word, 0);
    assert word[0..] == word;
  }

  /** Repacking the text of any payload but the two reserved ones gives a payload with the same text. */
  lemma AnswerTextCanonical(bytes: seq<Byte>)
    requires |bytes| == 4 && bytes[0] != 1 && bytes[0] != 2
    ensures Spells(bytes, 0, AnswerText(bytes)) && IsAnswerWord(AnswerText(bytes))
    ensures AnswerText(Pack(AnswerText(bytes))) == AnswerText(bytes)
  {
    LettersArePrefix(bytes, 0);
    var text := AnswerText(bytes);
    forall i | 0 <= i < |text|
      ensures 'A' <= text[i] <= 'F'
    {
      assert HalfSpells(bytes, 0 + i, text[i]);
    }
    AnswerRoundTrip(text);
  }
}
