/** The request texts of `utils/esr_peer_info`, and when they are the ABI calls they are meant to be. */
module EsrRequests {
  import opened Wrappers
  import opened Hex
  import opened Abi

  const REQUIRED_SIZE_MULTIPLE := 64
  const PARAMETER_OFFSET := 64
  const GET_PEERS_ADDRESS := "46e76d8b"
  const GET_PEER_INFO_SIGNATURE := "0xcc8575cb"
  const GET_PEERS_SELECTOR: seq<byte> := [0x46, 0xe7, 0x6d, 0x8b]
  const GET_PEER_INFO_SELECTOR: seq<byte> := [0xcc, 0x85, 0x75, 0xcb]
  const INT_RANGE := 0x1_0000_0000

  function PadStrToMod64(parameter: string): string {
    var remainder := |parameter| % REQUIRED_SIZE_MULTIPLE;
    if remainder != 0 then parameter + Zeros(REQUIRED_SIZE_MULTIPLE - remainder) else parameter
  }

  function DataStringForGetPeers(swarmId: seq<byte>): string {
    "0x" + PadStrToMod64(GET_PEERS_ADDRESS) + PadStrToMod64("00000020")
    + SizeTypeToHex(|swarmId|, 8) + PadStrToMod64(StringToHex(swarmId))
  }

  function Parameter(s: seq<byte>): string {
    SizeTypeToHex(|s|, 64) + PadStrToMod64(StringToHex(s))
  }

  /** The request with the first parameter at this offset and the second right after it. */
  function PeerInfoText(signature: string, offset: nat, swarmId: seq<byte>, peerId: seq<byte>): string {
    signature + SizeTypeToHex(offset, 64) + SizeTypeToHex(offset + |Parameter(swarmId)| / 2, 64)
    + Parameter(swarmId) + Parameter(peerId)
  }

  function DataStringForGetPeerInfo(swarmId: seq<byte>, peerId: seq<byte>): string {
    PeerInfoText(GET_PEER_INFO_SIGNATURE, PARAMETER_OFFSET, swarmId, peerId)
  }

  // What the texts spell

  lemma PaddingDoubles(size: nat)
    ensures 2 * size % 64 == 2 * (size % 32)
    ensures 2 * PaddingSize(size) == if size % 32 == 0 then 0 else 64 - 2 * size % 64
  {
    assert 2 * size == 64 * (size / 32) + 2 * (size % 32);
  }

  lemma PaddedLength(hex: string, size: nat)
    requires |hex| == 2 * size
    ensures PadStrToMod64(hex) == hex + Zeros(2 * PaddingSize(size))
  {
    PaddingDoubles(size);
    if |hex| % 64 == 0 {
      assert Zeros(0) == "" && hex + "" == hex;
    }
  }

  lemma PaddedDataSpells(s: seq<byte>)
    ensures Spells(PadStrToMod64(StringToHex(s)), PadRight(s))
  {
    HexSpells(s);
    PaddedLength(StringToHex(s), |s|);
    ZerosSpell(PaddingSize(|s|));
    SpellsConcat(StringToHex(s), Zeros(2 * PaddingSize(|s|)), s, ZeroBytes(PaddingSize(|s|)));
  }

  lemma ParameterSpells(s: seq<byte>)
    ensures Spells(Parameter(s), Word(|s| % INT_RANGE) + PadRight(s))
    ensures |Parameter(s)| == 2 * |EncodeString(s)|
  {
    SizeSpells(|s|, 32);
    PaddedDataSpells(s);
    SpellsConcat(SizeTypeToHex(|s|, 64), PadStrToMod64(StringToHex(s)), Word(|s| % INT_RANGE), PadRight(s));
    SpellsLength(Parameter(s), Word(|s| % INT_RANGE) + PadRight(s));
  }

  lemma FourSpell(a: string, b: string, c: string, d: string, w: byte, x: byte, y: byte, z: byte)
    requires Spells(a, [w]) && Spells(b, [x]) && Spells(c, [y]) && Spells(d, [z])
    ensures Spells(a + b + c + d, [w, x, y, z])
  {
    SpellsConcat(a, b, [w], [x]);
    SpellsConcat(a + b, c, [w] + [x], [y]);
    SpellsConcat(a + b + c, d, [w] + [x] + [y], [z]);
    assert [w] + [x] + [y] + [z] == [w, x, y, z];
  }

  lemma SelectorsSpell()
    ensures Spells(GET_PEERS_ADDRESS, GET_PEERS_SELECTOR)
    ensures Spells(GET_PEER_INFO_SIGNATURE[2..], GET_PEER_INFO_SELECTOR)
    ensures Spells("00000020", [0, 0, 0, 0x20])
  {
    PairSpells('4', '6');
    PairSpells('e', '7');
    PairSpells('6', 'd');
    PairSpells('8', 'b');
    FourSpell("46", "e7", "6d", "8b", 0x46, 0xe7, 0x6d, 0x8b);
    assert "46" + "e7" + "6d" + "8b" == GET_PEERS_ADDRESS;
    PairSpells('c', 'c');
    PairSpells('8', '5');
    PairSpells('7', '5');
    PairSpells('c', 'b');
    FourSpell("cc", "85", "75", "cb", 0xcc, 0x85, 0x75, 0xcb);
    assert "cc" + "85" + "75" + "cb" == GET_PEER_INFO_SIGNATURE[2..];
    PairSpells('0', '0');
    PairSpells('2', '0');
    FourSpell("00", "00", "00", "20", 0, 0, 0, 0x20);
    assert "00" + "00" + "00" + "20" == "00000020";
  }

  lemma FourBytes()
    ensures Power(256, 4) == INT_RANGE
  {
    assert Power(256, 2) == 0x1_0000;
  }

  lemma TruncatedWord(n: nat)
    ensures Word(n % INT_RANGE) == ZeroBytes(28) + BigEndian(n % INT_RANGE, 4)
    ensures n < ULONG_RANGE ==> (Word(n % INT_RANGE) == Word(n) <==> n < INT_RANGE)
  {
    hide BigEndian, Power, Value;
    FourBytes();
    LeftPadded(n % INT_RANGE, 28, 4);
    if n < ULONG_RANGE {
      SizeFitsWord(n);
      SizeFitsWord(n % INT_RANGE);
    }
  }

  /** The zeros that fill up one piece on the right are those the next piece needs on the left. */
  lemma Regroup(a: string, z: string, b: string, c: string, d: string)
    ensures ("0x" + (a + z) + (b + z) + c + d)[2..] == a + (z + b) + (z + c) + d
  {
  }

  lemma RegroupedSpells(a: string, z: string, b: string, c: string, d: string,
                        v: seq<byte>, zeros: seq<byte>, w: seq<byte>, x: seq<byte>, y: seq<byte>)
    requires Spells(a, v) && Spells(z, zeros) && Spells(b, w) && Spells(c, x) && Spells(d, y)
    ensures Spells(("0x" + (a + z) + (b + z) + c + d)[2..], v + (zeros + w) + (zeros + x) + y)
  {
    Regroup(a, z, b, c, d);
    SpellsConcat(z, b, zeros, w);
    SpellsConcat(z, c, zeros, x);
    SpellsConcat(a, z + b, v, zeros + w);
    SpellsConcat(a + (z + b), z + c, v + (zeros + w), zeros + x);
    SpellsConcat(a + (z + b) + (z + c), d, v + (zeros + w) + (zeros + x), y);
  }

  lemma PaddedLiterals()
    ensures PadStrToMod64(GET_PEERS_ADDRESS) == GET_PEERS_ADDRESS + Zeros(56)
    ensures PadStrToMod64("00000020") == "00000020" + Zeros(56)
    ensures BigEndian(32, 4) == [0, 0, 0, 0x20]
  {
  }

  /** The selector's padding and that of the argument offset regroup into left-padded words. */
  lemma GetPeersSpells(swarmId: seq<byte>)
    ensures Spells(DataStringForGetPeers(swarmId)[2..],
                   GET_PEERS_SELECTOR + Word(32) + Word(|swarmId| % INT_RANGE) + PadRight(swarmId))
  {
    SelectorsSpell();
    ZerosSpell(28);
    SizeSpells(|swarmId|, 4);
    PaddedDataSpells(swarmId);
    TruncatedWord(|swarmId|);
    TruncatedWord(32);
    PaddedLiterals();
    RegroupedSpells(GET_PEERS_ADDRESS, Zeros(56), "00000020", SizeTypeToHex(|swarmId|, 8), PadStrToMod64(StringToHex(swarmId)),
            GET_PEERS_SELECTOR, ZeroBytes(28), [0, 0, 0, 0x20], BigEndian(|swarmId| % INT_RANGE, 4), PadRight(swarmId));
  }

  /** Both requests start as hexadecimal constants do. */
  lemma RequestsAreHexConstants(swarmId: seq<byte>, peerId: seq<byte>)
    ensures "0x46e76d8b" <= DataStringForGetPeers(swarmId) && "0xcc8575cb" <= DataStringForGetPeerInfo(swarmId, peerId)
  {
    PaddedLiterals();
    var text := DataStringForGetPeers(swarmId);
    hide PadStrToMod64, SizeTypeToHex, StringToHex, Zeros, Parameter;
    assert ("0x" + ("46e76d8b" + Zeros(56)))[..10] == "0x46e76d8b";
    assert text[..10] == ("0x" + ("46e76d8b" + Zeros(56)))[..10];
    assert DataStringForGetPeerInfo(swarmId, peerId)[..10] == "0xcc8575cb";
  }

  lemma WordInCall(a: seq<byte>, b: seq<byte>, w: seq<byte>, w': seq<byte>, c: seq<byte>, c': seq<byte>)
    requires |w| == |w'| && a + b + w + c == a + b + w' + c'
    ensures w == w'
  {
    assert (a + b + w + c)[|a| + |b|..][..|w|] == w;
    assert (a + b + w' + c')[|a| + |b|..][..|w|] == w';
  }

  /** The `getNodeList` request is the ABI call for its swarm id exactly when the id's size survives the
      cast to a 32-bit `int`. */
  lemma GetPeersIsAbiCall(swarmId: seq<byte>)
    requires |swarmId| < ULONG_RANGE
    ensures Spells(DataStringForGetPeers(swarmId)[2..], EncodeCall(GET_PEERS_SELECTOR, swarmId))
       <==> |swarmId| < 0x1_0000_0000
  {
    GetPeersSpells(swarmId);
    TruncatedWord(|swarmId|);
    Reassociate(GET_PEERS_SELECTOR + Word(32), Word(|swarmId|), PadRight(swarmId));
    if GET_PEERS_SELECTOR + Word(32) + Word(|swarmId|) + PadRight(swarmId)
      == GET_PEERS_SELECTOR + Word(32) + Word(|swarmId| % INT_RANGE) + PadRight(swarmId)
    {
      WordInCall(GET_PEERS_SELECTOR, Word(32), Word(|swarmId|), Word(|swarmId| % INT_RANGE), PadRight(swarmId), PadRight(swarmId));
    }
  }

  lemma AfterPrefix(a: string, b: string, c: string, d: string, e: string)
    requires |a| >= 2
    ensures (a + b + c + d + e)[2..] == a[2..] + b + c + d + e
  {
  }

  lemma FiveSpell(a: string, b: string, c: string, d: string, e: string,
                  v: seq<byte>, w: seq<byte>, x: seq<byte>, y: seq<byte>, z: seq<byte>)
    requires |a| >= 2
    requires Spells(a[2..], v) && Spells(b, w) && Spells(c, x) && Spells(d, y) && Spells(e, z)
    ensures Spells((a + b + c + d + e)[2..], v + w + x + y + z)
  {
    AfterPrefix(a, b, c, d, e);
    SpellsConcat(a[2..], b, v, w);
    SpellsConcat(a[2..] + b, c, v + w, x);
    SpellsConcat(a[2..] + b + c, d, v + w + x, y);
    SpellsConcat(a[2..] + b + c + d, e, v + w + x + y, z);
  }

  /** What the request spells, each size taken modulo 2^32. */
  function SpelledText(selector: seq<byte>, offset: nat, swarmId: seq<byte>, peerId: seq<byte>): seq<byte> {
    selector + Word(offset % INT_RANGE) + Word((offset + |EncodeString(swarmId)|) % INT_RANGE)
    + (Word(|swarmId| % INT_RANGE) + PadRight(swarmId)) + (Word(|peerId| % INT_RANGE) + PadRight(peerId))
  }

  function SpelledCall(swarmId: seq<byte>, peerId: seq<byte>): seq<byte> {
    SpelledText(GET_PEER_INFO_SELECTOR, PARAMETER_OFFSET, swarmId, peerId)
  }

  lemma PeerInfoTextSpells(signature: string, selector: seq<byte>, offset: nat, swarmId: seq<byte>, peerId: seq<byte>)
    requires |signature| >= 2 && Spells(signature[2..], selector)
    ensures Spells(PeerInfoText(signature, offset, swarmId, peerId)[2..], SpelledText(selector, offset, swarmId, peerId))
  {
    hide Unhex, ToHex, StringToHex, BigEndian;
    var second := offset + |Parameter(swarmId)| / 2;
    var first, next, s, p := SizeTypeToHex(offset, 64), SizeTypeToHex(second, 64), Parameter(swarmId), Parameter(peerId);
    var sBytes, pBytes := Word(|swarmId| % INT_RANGE) + PadRight(swarmId), Word(|peerId| % INT_RANGE) + PadRight(peerId);
    assert Spells(first, Word(offset % INT_RANGE)) && Spells(next, Word(second % INT_RANGE)) by {
      SizeSpells(offset, 32);
      SizeSpells(second, 32);
    }
    assert Spells(s, sBytes) && Spells(p, pBytes) && second == offset + |EncodeString(swarmId)| by {
      ParameterSpells(swarmId);
      ParameterSpells(peerId);
    }
    FiveSpell(signature, first, next, s, p, selector, Word(offset % INT_RANGE), Word(second % INT_RANGE), sBytes, pBytes);
    assert PeerInfoText(signature, offset, swarmId, peerId) == signature + first + next + s + p;
  }

  lemma GetPeerInfoSpells(swarmId: seq<byte>, peerId: seq<byte>)
    ensures Spells(DataStringForGetPeerInfo(swarmId, peerId)[2..], SpelledCall(swarmId, peerId))
  {
    SelectorsSpell();
    PeerInfoTextSpells(GET_PEER_INFO_SIGNATURE, GET_PEER_INFO_SELECTOR, PARAMETER_OFFSET, swarmId, peerId);
  }

  /** The sizes for which the `getNodeInfo` request comes out right: its second offset and its second
      length survive the cast to a 32-bit `int`. */
  predicate FitsInt(swarmId: seq<byte>, peerId: seq<byte>) {
    64 + |EncodeString(swarmId)| < INT_RANGE && |peerId| < INT_RANGE
  }

  lemma LastWordInCall(a: seq<byte>, w: seq<byte>, w': seq<byte>, c: seq<byte>)
    requires |w| == |w'| && a + (w + c) == a + (w' + c)
    ensures w == w'
  {
    assert (a + (w + c))[|a|..][..|w|] == w;
    assert (a + (w' + c))[|a|..][..|w|] == w';
  }

  /** The call with sizes modulo 2^32 is the call proper only if they fit. */
  lemma SpelledCallDiffers(swarmId: seq<byte>, peerId: seq<byte>)
    requires 64 + |EncodeString(swarmId)| < ULONG_RANGE && |peerId| < ULONG_RANGE
    requires SpelledCall(swarmId, peerId) == EncodeCall2(GET_PEER_INFO_SELECTOR, swarmId, peerId)
    ensures FitsInt(swarmId, peerId)
  {
    var offset := 64 + |EncodeString(swarmId)|;
    TruncatedWord(|peerId|);
    TruncatedWord(offset);
    var s, p := Word(|swarmId| % INT_RANGE) + PadRight(swarmId), Word(|peerId| % INT_RANGE) + PadRight(peerId);
    Reassociate(GET_PEER_INFO_SELECTOR + Word(64) + Word(offset), EncodeString(swarmId), EncodeString(peerId));
    Reassociate(GET_PEER_INFO_SELECTOR + Word(64) + Word(offset % INT_RANGE), s, p);
    WordInCall(GET_PEER_INFO_SELECTOR, Word(64), Word(offset), Word(offset % INT_RANGE), EncodeString(swarmId) + EncodeString(peerId), s + p);
    TruncatedWord(|swarmId|);
    LastWordInCall(GET_PEER_INFO_SELECTOR + Word(64) + Word(offset) + EncodeString(swarmId),
                   Word(|peerId|), Word(|peerId| % INT_RANGE), PadRight(peerId));
  }

  lemma SpelledCallAgrees(swarmId: seq<byte>, peerId: seq<byte>)
    requires 64 + |EncodeString(swarmId)| < ULONG_RANGE && |peerId| < ULONG_RANGE
    ensures SpelledCall(swarmId, peerId) == EncodeCall2(GET_PEER_INFO_SELECTOR, swarmId, peerId) <==> FitsInt(swarmId, peerId)
  {
    if SpelledCall(swarmId, peerId) == EncodeCall2(GET_PEER_INFO_SELECTOR, swarmId, peerId) {
      SpelledCallDiffers(swarmId, peerId);
    } else {
      TruncatedWord(|swarmId|);
      TruncatedWord(|peerId|);
      TruncatedWord(64 + |EncodeString(swarmId)|);
    }
  }

  /** The `getNodeInfo` request is the ABI call for its two ids exactly when their sizes fit. */
  lemma GetPeerInfoIsAbiCall(swarmId: seq<byte>, peerId: seq<byte>)
    requires 64 + |EncodeString(swarmId)| < ULONG_RANGE && |peerId| < ULONG_RANGE
    ensures Spells(DataStringForGetPeerInfo(swarmId, peerId)[2..], EncodeCall2(GET_PEER_INFO_SELECTOR, swarmId, peerId))
       <==> 64 + |EncodeString(swarmId)| < 0x1_0000_0000 && |peerId| < 0x1_0000_0000
  {
    GetPeerInfoSpells(swarmId, peerId);
    SpelledCallAgrees(swarmId, peerId);
  }

  lemma Reassociate<T>(a: seq<T>, b: seq<T>, c: seq<T>)
    ensures a + b + c == a + (b + c)
  {
  }

  /** Following the request's own offsets recovers both ids. */
  lemma GetPeerInfoDecodes(swarmId: seq<byte>, peerId: seq<byte>)
    requires 64 + |EncodeString(swarmId)| < 0x1_0000_0000 && |peerId| < 0x1_0000_0000
    ensures var bytes := Unhex(DataStringForGetPeerInfo(swarmId, peerId)[2..]);
            bytes.Success? && DecodeCall2(bytes.value) == Some((swarmId, peerId))
  {
    GetPeerInfoIsAbiCall(swarmId, peerId);
    DecodesCall2(GET_PEER_INFO_SELECTOR, swarmId, peerId);
  }

  lemma LastPiece(a: string, b: string, c: string, d: string, e: string)
    ensures (a + b + c + d + e)[|a| + |b| + |c| + |d|..] == e
  {
  }

  lemma SecondParameterAt(signature: string, offset: nat, swarmId: seq<byte>, peerId: seq<byte>)
    ensures var text := PeerInfoText(signature, offset, swarmId, peerId);
            var start := |signature| + 128 + |Parameter(swarmId)|;
            start <= |text| && text[start..] == Parameter(peerId)
  {
    var second := offset + |Parameter(swarmId)| / 2;
    SizeTextLength(offset, 32);
    SizeTextLength(second, 32);
    LastPiece(signature, SizeTypeToHex(offset, 64), SizeTypeToHex(second, 64), Parameter(swarmId), Parameter(peerId));
  }

  /** The second offset written in the request is where the text of the second parameter starts, counted in
      bytes after the selector. */
  lemma SecondOffsetLands(swarmId: seq<byte>, peerId: seq<byte>)
    ensures var text := DataStringForGetPeerInfo(swarmId, peerId);
            var second := PARAMETER_OFFSET + |Parameter(swarmId)| / 2;
            |GET_PEER_INFO_SIGNATURE| + 2 * second <= |text| && text[|GET_PEER_INFO_SIGNATURE| + 2 * second..] == Parameter(peerId)
  {
    hide Parameter, PeerInfoText, EncodeString, Spells, SizeTypeToHex, Word, PadRight;
    ParameterSpells(swarmId);
    SecondParameterAt(GET_PEER_INFO_SIGNATURE, PARAMETER_OFFSET, swarmId, peerId);
  }
}
