/** The parts of the Solidity Contract ABI Specification the ESR client meets ("Formal Specification of the
    Encoding" and "Use of Dynamic Types"), on bytes: the reference the client's text is compared with. */
module Abi {
  import opened Wrappers
  import opened Hex

  const WORD_SIZE := 32

  /** A `uint256`. */
  function Word(n: nat): (r: seq<byte>)
    ensures |r| == 32
  {
    BigEndian(n, WORD_SIZE)
  }

  function ZeroBytes(n: nat): (r: seq<byte>)
    ensures |r| == n
  {
    seq(n, _ => 0)
  }

  function PaddingSize(size: nat): nat {
    (32 - size % 32) % 32
  }

  function PadRight(s: seq<byte>): (r: seq<byte>)
    ensures |r| == |s| + PaddingSize(|s|) && |r| % 32 == 0
  {
    s + ZeroBytes(PaddingSize(|s|))
  }

  /** A dynamic `string`: its length, then its bytes in whole words. */
  function EncodeString(s: seq<byte>): seq<byte> {
    Word(|s|) + PadRight(s)
  }

  /** The offsets of an array's elements, the first one given. */
  function Offsets(items: seq<seq<byte>>, first: nat): seq<byte> {
    if items == [] then [] else Word(first) + Offsets(items[1..], first + |EncodeString(items[0])|)
  }

  function Elements(items: seq<seq<byte>>): seq<byte> {
    if items == [] then [] else EncodeString(items[0]) + Elements(items[1..])
  }

  /** A single returned `string[]`. */
  function EncodeStringArray(items: seq<seq<byte>>): seq<byte> {
    Word(32) + Word(|items|) + Offsets(items, 32 * |items|) + Elements(items)
  }

  /** A call with one `string` argument. */
  function EncodeCall(selector: seq<byte>, s: seq<byte>): seq<byte> {
    selector + Word(32) + EncodeString(s)
  }

  /** A call with two `string` arguments. */
  function EncodeCall2(selector: seq<byte>, s: seq<byte>, t: seq<byte>): seq<byte> {
    selector + Word(64) + Word(64 + |EncodeString(s)|) + EncodeString(s) + EncodeString(t)
  }

  /** A value of one of the two types the client's functions return. */
  datatype AbiValue = Uint(n: nat) | Text(s: seq<byte>)

  function Heads(values: seq<AbiValue>, offset: nat): seq<byte> {
    if values == [] then []
    else match values[0]
      case Uint(n) => Word(n) + Heads(values[1..], offset)
      case Text(s) => Word(offset) + Heads(values[1..], offset + |EncodeString(s)|)
  }

  function Tails(values: seq<AbiValue>): seq<byte> {
    if values == [] then []
    else (if values[0].Text? then EncodeString(values[0].s) else []) + Tails(values[1..])
  }

  /** Several returned values: a word for each, which for a string is its offset, and then the strings. */
  function EncodeTuple(values: seq<AbiValue>): seq<byte> {
    Heads(values, 32 * |values|) + Tails(values)
  }

  /** The string whose offset is in the word at `head`, read by following that offset. */
  function DecodeString(args: seq<byte>, head: nat): Option<seq<byte>> {
    if head + 32 > |args| then None
    else
      var offset := Value(args[head..head + 32]);
      if offset + 32 > |args| then None
      else
        var size := Value(args[offset..offset + 32]);
        if offset + 32 + size > |args| then None else Some(args[offset + 32..offset + 32 + size])
  }

  function DecodeCall2(call: seq<byte>): Option<(seq<byte>, seq<byte>)> {
    if |call| < 4 then None
    else
      var s, t := DecodeString(call[4..], 0), DecodeString(call[4..], 32);
      if s.Some? && t.Some? then Some((s.value, t.value)) else None
  }

  lemma DecodesAt(args: seq<byte>, head: nat, offset: nat, s: seq<byte>)
    requires head + 32 <= |args| && args[head..head + 32] == Word(offset)
    requires offset <= |args| && EncodeString(s) <= args[offset..]
    requires offset < ULONG_RANGE && |s| < ULONG_RANGE
    ensures DecodeString(args, head) == Some(s)
  {
    SizeFitsWord(offset);
    SizeFitsWord(|s|);
    var e := EncodeString(s);
    var tail := args[offset..];
    assert tail[..|e|] == e;
    assert args[offset..offset + 32] == e[..32] == Word(|s|);
    assert args[offset + 32..offset + 32 + |s|] == e[32..32 + |s|] == s;
  }

  lemma ArgumentLayout(selector: seq<byte>, w: seq<byte>, x: seq<byte>, y: seq<byte>, z: seq<byte>)
    requires |selector| == 4 && |w| == 32 && |x| == 32
    ensures var args := (selector + w + x + y + z)[4..];
            && |args| == 64 + |y| + |z|
            && args[0..32] == w && args[32..64] == x && args[64..] == y + z && args[64 + |y|..] == z
  {
    assert (selector + w + x + y + z)[4..] == w + x + y + z;
  }

  /** Decoding by offsets recovers both arguments of a call. */
  lemma DecodesCall2(selector: seq<byte>, s: seq<byte>, t: seq<byte>)
    requires |selector| == 4
    requires 64 + |EncodeString(s)| < ULONG_RANGE && |t| < ULONG_RANGE
    ensures DecodeCall2(EncodeCall2(selector, s, t)) == Some((s, t))
  {
    assert |EncodeString(s)| >= 32 + |s|;
    hide Word, BigEndian, PadRight, EncodeString, DecodeString;
    var es, et := EncodeString(s), EncodeString(t);
    ArgumentLayout(selector, Word(64), Word(64 + |es|), es, et);
    var args := EncodeCall2(selector, s, t)[4..];
    DecodesAt(args, 0, 64, s);
    DecodesAt(args, 32, 64 + |es|, t);
  }

  /** A number that fits in `low` bytes is padded with zero bytes on the left. */
  lemma {:induction false} LeftPadded(n: nat, high: nat, low: nat)
    requires n < Power(256, low)
    ensures BigEndian(n, high + low) == ZeroBytes(high) + BigEndian(n, low)
  {
    if low > 0 {
      LeftPadded(n / 256, high, low - 1);
    } else if high > 0 {
      LeftPadded(0, high - 1, 0);
      assert ZeroBytes(high) == ZeroBytes(high - 1) + [0];
    }
  }

  lemma {:induction false} ZerosSpell(n: nat)
    ensures Spells(Zeros(2 * n), ZeroBytes(n))
  {
    if n > 0 {
      ZerosSpell(n - 1);
      assert Zeros(2 * n)[2..] == Zeros(2 * (n - 1));
      assert ZeroBytes(n) == [0] + ZeroBytes(n - 1);
    }
  }

  lemma HeadsStep(v: AbiValue, rest: seq<AbiValue>, offset: nat)
    ensures Heads([v] + rest, offset) ==
            if v.Uint? then Word(v.n) + Heads(rest, offset) else Word(offset) + Heads(rest, offset + |EncodeString(v.s)|)
    ensures Tails([v] + rest) == (if v.Text? then EncodeString(v.s) else []) + Tails(rest)
  {
    assert ([v] + rest)[1..] == rest;
  }
}
