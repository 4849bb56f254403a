/** `parse_get_peers_result_to_vector`: the line-driven reader of a returned `string[]`. */
module EsrPeers {
  import opened Wrappers
  import opened Hex
  import opened Abi

  const ESR_RESPONSE_LINE_LENGTH := 64

  datatype State = Header | HeaderSwarmSize | HeaderInfo | PeerIdSize | PeerId

  /** The reader between two lines: its variables, or how it left the loop early. */
  datatype Cursor =
    | Reading(state: State, index: nat, nodeCount: nat, peerIdLength: nat, peerId: seq<byte>, results: seq<seq<byte>>)
    | Returned(results: seq<seq<byte>>)
    | Threw(error: HexError)

  /** `trim_right_nulls` */
  function TrimRightNulls(s: seq<byte>): seq<byte> {
    if s != [] && s[|s| - 1] == 0 then TrimRightNulls(s[..|s| - 1]) else s
  }

  function ReadLine(c: Cursor, line: string): Cursor
    requires c.Reading?
  {
    var next := c.(index := c.index + 1);
    match c.state
    case Header => next.(state := HeaderSwarmSize)
    case HeaderSwarmSize =>
      var count := StrToUL(line);
      if count == 0 then Returned(c.results) else next.(state := HeaderInfo, nodeCount := count)
    case HeaderInfo =>
      next.(state := if c.index == (c.nodeCount + 1) % ULONG_RANGE then PeerIdSize else HeaderInfo)
    case PeerIdSize =>
      var length := StrToUL(line);
      if length != 0 then next.(state := PeerId, peerIdLength := length)
      else next.(peerIdLength := 0, nodeCount := (c.nodeCount - 1) % ULONG_RANGE)
    case PeerId =>
      match Unhex(line)
      case Failure(e) => Threw(e)
      case Success(bytes) =>
        var id := c.peerId + bytes;
        if |id| >= c.peerIdLength then
          next.(state := PeerIdSize, peerId := [], results := c.results + [TrimRightNulls(id)])
        else next.(peerId := id)
  }

  /** Reads whole lines until the loop is left or less than a line remains. */
  function ReadAll(text: string, c: Cursor): Cursor {
    if !c.Reading? || |text| < ESR_RESPONSE_LINE_LENGTH then c
    else ReadAll(text[ESR_RESPONSE_LINE_LENGTH..], ReadLine(c, text[..ESR_RESPONSE_LINE_LENGTH]))
  }

  function Outcome(c: Cursor): Result<seq<seq<byte>>, HexError> {
    match c
    case Threw(e) => Failure(e)
    case Returned(results) => Success(results)
    case Reading(_, _, _, _, _, results) => Success(results)
  }

  const START := Reading(Header, 0, 0, 0, [], [])

  function ParsedPeers(text: string): Result<seq<seq<byte>>, HexError> {
    Outcome(ReadAll(text, START))
  }

  method ParseGetPeersResultToVector(text: string) returns (r: Result<seq<seq<byte>>, HexError>)
    ensures r == ParsedPeers(text)
  {
    var results: seq<seq<byte>> := [];
    var nodeCount: nat := 0;
    var state := Header;
    var index := 0;
    var peerId: seq<byte> := [];
    var peerIdLength: nat := 0;
    var position := 0;
    assert text[0..] == text;
    while |text| - position >= ESR_RESPONSE_LINE_LENGTH
      invariant position <= |text|
      invariant ReadAll(text[position..], Reading(state, index, nodeCount, peerIdLength, peerId, results)) == ReadAll(text, START)
    {
      var line := text[position..position + ESR_RESPONSE_LINE_LENGTH];
      ghost var rest := text[position..];
      assert rest[..ESR_RESPONSE_LINE_LENGTH] == line;
      assert rest[ESR_RESPONSE_LINE_LENGTH..] == text[position + ESR_RESPONSE_LINE_LENGTH..];
      match state {
        case Header =>
          state := HeaderSwarmSize;
        case HeaderSwarmSize =>
          state := HeaderInfo;
          nodeCount := StrToUL(line);
          if nodeCount == 0 {
            return Success(results);
          }
        case HeaderInfo =>
          state := if index == (nodeCount + 1) % ULONG_RANGE then PeerIdSize else state;
        case PeerIdSize =>
          peerIdLength := StrToUL(line);
          if peerIdLength != 0 {
            state := PeerId;
          } else {
            nodeCount := (nodeCount - 1) % ULONG_RANGE;
            state := PeerIdSize;
          }
        case PeerId =>
          var bytes := Unhex(line);
          if bytes.Failure? {
            return Failure(bytes.error);
          }
          peerId := peerId + bytes.value;
          if |peerId| >= peerIdLength {
            peerId := TrimRightNulls(peerId);
            results := results + [peerId];
            peerId := [];
            state := PeerIdSize;
          }
      }
      index := index + 1;
      position := position + ESR_RESPONSE_LINE_LENGTH;
    }
    r := Success(results);
  }

  // Reading encoded text

  /** The first word of the text is on its first line. */
  lemma FirstLine(text: string, word: seq<byte>, rest: seq<byte>)
    requires |word| == 32 && Spells(text, word + rest)
    ensures |text| >= 64 && Spells(text[..64], word) && Spells(text[64..], rest)
    ensures StrToUL(text[..64]) == Clamp(Value(word))
  {
    SpellsSplit(text, word, rest);
    StrToULReads(text[..64], word);
  }

  lemma SizeLine(text: string, n: nat, rest: seq<byte>)
    requires n < ULONG_RANGE && Spells(text, Word(n) + rest)
    ensures |text| >= 64 && StrToUL(text[..64]) == n && Spells(text[64..], rest)
  {
    FirstLine(text, Word(n), rest);
    SizeFitsWord(n);
  }

  lemma {:induction false} OffsetsSkipped(text: string, c: Cursor, items: seq<seq<byte>>, first: nat, rest: seq<byte>)
    requires c.Reading? && c.state == HeaderInfo && items != []
    requires c.index + |items| == c.nodeCount + 2 && c.nodeCount + 1 < ULONG_RANGE
    requires Spells(text, Offsets(items, first) + rest)
    ensures |text| >= 64 * |items| && Spells(text[64 * |items|..], rest)
    ensures ReadAll(text, c) == ReadAll(text[64 * |items|..], c.(state := PeerIdSize, index := c.index + |items|))
    decreases |items|
  {
    hide Unhex, BigEndian, StrToUL, TrimRightNulls;
    var more := Offsets(items[1..], first + |EncodeString(items[0])|);
    assert Offsets(items, first) + rest == Word(first) + (more + rest);
    FirstLine(text, Word(first), more + rest);
    var c' := ReadLine(c, text[..64]);
    if |items| == 1 {
      assert more + rest == rest;
    } else {
      OffsetsSkipped(text[64..], c', items[1..], first + |EncodeString(items[0])|, rest);
      assert text[64..][64 * |items[1..]|..] == text[64 * |items|..];
    }
  }

  /** The words of one string are read up to its length, and its padding is trimmed with its own nulls. */
  lemma {:induction false} DataRead(text: string, c: Cursor, data: seq<byte>, rest: seq<byte>)
    requires c.Reading? && c.state == PeerId
    requires |data| % 32 == 0 && |c.peerId| + |data| - 32 < c.peerIdLength <= |c.peerId| + |data| && data != []
    requires Spells(text, data + rest)
    ensures |text| >= 2 * |data| && Spells(text[2 * |data|..], rest)
    ensures ReadAll(text, c) ==
            ReadAll(text[2 * |data|..], c.(state := PeerIdSize, index := c.index + |data| / 32, peerId := [],
                                           results := c.results + [TrimRightNulls(c.peerId + data)]))
    decreases |data|
  {
    hide Unhex, StrToUL, TrimRightNulls;
    var word, more := data[..32], data[32..];
    assert data + rest == word + (more + rest);
    FirstLine(text, word, more + rest);
    var c' := ReadLine(c, text[..64]);
    assert c.peerId + word + more == c.peerId + data;
    if more == [] {
      assert more + rest == rest && data == word;
    } else {
      DataRead(text[64..], c', more, rest);
      assert text[64..][2 * |more|..] == text[2 * |data|..];
    }
  }

  lemma {:induction false} TrimsPadding(s: seq<byte>, n: nat)
    ensures TrimRightNulls(s + ZeroBytes(n)) == TrimRightNulls(s)
  {
    if n == 0 {
      assert s + ZeroBytes(0) == s;
    } else {
      var padded := s + ZeroBytes(n);
      assert padded[..|padded| - 1] == s + ZeroBytes(n - 1);
      TrimsPadding(s, n - 1);
    }
  }

  /** What the reader keeps of a list: the non-empty strings, without their trailing nulls. */
  function Kept(items: seq<seq<byte>>): seq<seq<byte>> {
    if items == [] then []
    else (if items[0] == [] then [] else [TrimRightNulls(items[0])]) + Kept(items[1..])
  }

  lemma ElementRead(text: string, c: Cursor, s: seq<byte>, rest: seq<byte>) returns (text': string, c': Cursor)
    requires c.Reading? && c.state == PeerIdSize && c.peerId == []
    requires |s| < ULONG_RANGE && Spells(text, EncodeString(s) + rest)
    ensures c'.Reading? && c'.state == PeerIdSize && c'.peerId == []
    ensures c'.results == c.results + if s == [] then [] else [TrimRightNulls(s)]
    ensures Spells(text', rest) && |text'| < |text|
    ensures ReadAll(text, c) == ReadAll(text', c')
  {
    hide Unhex, StrToUL, TrimRightNulls, BigEndian;
    assert EncodeString(s) + rest == Word(|s|) + (PadRight(s) + rest);
    SizeLine(text, |s|, PadRight(s) + rest);
    text', c' := text[64..], ReadLine(c, text[..64]);
    if s == [] {
      assert PadRight(s) + rest == rest;
    } else {
      DataRead(text', c', PadRight(s), rest);
      TrimsPadding(s, PaddingSize(|s|));
      assert [] + PadRight(s) == PadRight(s);
      c' := c'.(state := PeerIdSize, index := c'.index + |PadRight(s)| / 32, peerId := [],
                results := c'.results + [TrimRightNulls(PadRight(s))]);
      text' := text'[2 * |PadRight(s)|..];
    }
  }

  lemma NothingRead(text: string, c: Cursor)
    requires Spells(text, [])
    ensures ReadAll(text, c) == c
  {
    SpellsLength(text, []);
  }

  lemma {:induction false} ElementsRead(text: string, c: Cursor, items: seq<seq<byte>>)
    requires c.Reading? && c.state == PeerIdSize && c.peerId == []
    requires forall s <- items :: |s| < ULONG_RANGE
    requires Spells(text, Elements(items))
    ensures Outcome(ReadAll(text, c)) == Success(c.results + Kept(items))
    decreases |items|
  {
    hide EncodeString, ReadAll, Spells;
    if items == [] {
      NothingRead(text, c);
      assert c.results + Kept(items) == c.results;
    } else {
      var text', c' := ElementRead(text, c, items[0], Elements(items[1..]));
      ElementsRead(text', c', items[1..]);
      assert c.results + Kept(items) == c'.results + Kept(items[1..]);
    }
  }

  lemma OneLine(text: string, c: Cursor)
    ensures c.Reading? && |text| >= 64 ==> ReadAll(text, c) == ReadAll(text[64..], ReadLine(c, text[..64]))
    ensures !c.Reading? ==> ReadAll(text, c) == c
  {
  }

  /** The two header lines: the offset of the array, which is skipped, and its size. */
  lemma HeaderRead(text: string, c: Cursor, word: seq<byte>, n: nat, rest: seq<byte>)
    requires c.Reading? && c.state == Header
    requires |word| == 32 && n < ULONG_RANGE && Spells(text, word + (Word(n) + rest))
    ensures |text| >= 128 && Spells(text[64..][64..], rest)
    ensures ReadAll(text, c) == if n == 0 then Returned(c.results)
            else ReadAll(text[64..][64..], c.(state := HeaderInfo, index := c.index + 2, nodeCount := n))
  {
    hide Unhex, StrToUL, TrimRightNulls, BigEndian, ReadAll, Spells, Value;
    FirstLine(text, word, Word(n) + rest);
    SizeLine(text[64..], n, rest);
    OneLine(text, c);
    var c1 := ReadLine(c, text[..64]);
    OneLine(text[64..], c1);
    OneLine(text[64..][64..], ReadLine(c1, text[64..][..64]));
  }

  lemma ArrayRead(text: string, c: Cursor, word: seq<byte>, items: seq<seq<byte>>)
    requires c.Reading? && c.state == Header && c.index == 0 && c.peerId == [] && |word| == 32
    requires |items| + 1 < ULONG_RANGE && forall s <- items :: |s| < ULONG_RANGE
    requires Spells(text, word + (Word(|items|) + (Offsets(items, 32 * |items|) + Elements(items))))
    ensures Outcome(ReadAll(text, c)) == Success(c.results + Kept(items))
  {
    hide Unhex, StrToUL, TrimRightNulls, BigEndian, ReadAll, Offsets, Elements, Spells;
    HeaderRead(text, c, word, |items|, Offsets(items, 32 * |items|) + Elements(items));
    if items == [] {
      assert c.results + [] == c.results;
    } else {
      var text2 := text[64..][64..];
      OffsetsSkipped(text2, c.(state := HeaderInfo, index := 2, nodeCount := |items|), items, 32 * |items|, Elements(items));
      ElementsRead(text2[64 * |items|..], c.(state := PeerIdSize, index := 2 + |items|, nodeCount := |items|), items);
    }
  }

  /** Whatever the case of its digits, the text of an ABI-encoded `string[]` is read as its non-empty
      strings in order, each without its trailing nulls. */
  lemma ReadsStringArray(text: string, items: seq<seq<byte>>)
    requires Spells(text, EncodeStringArray(items))
    requires |items| + 1 < ULONG_RANGE && forall s <- items :: |s| < ULONG_RANGE
    ensures ParsedPeers(text) == Success(Kept(items))
  {
    ArrayLayout(items);
    hide Unhex, StrToUL, TrimRightNulls, BigEndian, ReadAll, Offsets, Elements, Spells, Kept, EncodeStringArray;
    ArrayRead(text, START, Word(32), items);
    assert [] + Kept(items) == Kept(items);
  }

  lemma ArrayLayout(items: seq<seq<byte>>)
    ensures EncodeStringArray(items) == Word(32) + (Word(|items|) + (Offsets(items, 32 * |items|) + Elements(items)))
  {
    hide BigEndian, Offsets, Elements;
  }

  function NonEmpty(items: seq<seq<byte>>): seq<seq<byte>> {
    if items == [] then [] else (if items[0] == [] then [] else [items[0]]) + NonEmpty(items[1..])
  }

  predicate EndsInNull(s: seq<byte>) {
    s != [] && s[|s| - 1] == 0
  }

  lemma {:induction false} TrimShortens(s: seq<byte>)
    ensures TrimRightNulls(s) <= s
    ensures TrimRightNulls(s) == s <==> !EndsInNull(s)
    ensures !EndsInNull(TrimRightNulls(s))
  {
    if EndsInNull(s) {
      TrimShortens(s[..|s| - 1]);
    }
  }

  lemma {:induction false} KeptIsNonEmpty(items: seq<seq<byte>>)
    ensures |Kept(items)| == |NonEmpty(items)|
    ensures Kept(items) == NonEmpty(items) <==> forall s <- items :: !EndsInNull(s)
  {
    if items != [] {
      KeptIsNonEmpty(items[1..]);
      TrimShortens(items[0]);
      assert (forall s <- items :: !EndsInNull(s)) <==> !EndsInNull(items[0]) && forall s <- items[1..] :: !EndsInNull(s) by {
        assert items == [items[0]] + items[1..];
      }
      if items[0] != [] {
        assert Kept(items)[1..] == Kept(items[1..]) && NonEmpty(items)[1..] == NonEmpty(items[1..]);
        assert Kept(items)[0] == TrimRightNulls(items[0]) && NonEmpty(items)[0] == items[0];
      } else {
        assert Kept(items) == Kept(items[1..]) && NonEmpty(items) == NonEmpty(items[1..]);
      }
    }
  }

  lemma {:induction false} NonEmptyIsAll(items: seq<seq<byte>>)
    ensures |NonEmpty(items)| <= |items|
    ensures |NonEmpty(items)| == |items| ==> NonEmpty(items) == items
    ensures NonEmpty(items) == items <==> forall s <- items :: s != []
  {
    if items != [] {
      NonEmptyIsAll(items[1..]);
      assert items[0] in items && forall s <- items[1..] :: s in items;
      assert forall s <- items :: s == items[0] || s in items[1..];
      if items[0] != [] {
        assert NonEmpty(items)[1..] == NonEmpty(items[1..]);
      } else {
        assert |NonEmpty(items)| < |items| && items[0] in items;
      }
    }
  }

  lemma KeptIsAll(items: seq<seq<byte>>)
    ensures Kept(items) == items <==> forall s <- items :: s != [] && !EndsInNull(s)
  {
    KeptIsNonEmpty(items);
    NonEmptyIsAll(items);
    hide Kept, NonEmpty, EndsInNull;
  }

  /** The round trip on `string[]`: exactly the non-empty strings come back, in order, if and only if none
      ends in a null; and the whole list if and only if, besides, none is empty. */
  lemma PeersRoundTrip(text: string, items: seq<seq<byte>>)
    requires Spells(text, EncodeStringArray(items))
    requires |items| + 1 < ULONG_RANGE && forall s <- items :: |s| < ULONG_RANGE
    ensures ParsedPeers(text) == Success(NonEmpty(items)) <==> forall s <- items :: !EndsInNull(s)
    ensures ParsedPeers(text) == Success(items) <==> forall s <- items :: s != [] && !EndsInNull(s)
  {
    hide ParsedPeers, Kept, NonEmpty, EndsInNull, EncodeStringArray, Spells;
    ReadsStringArray(text, items);
    KeptIsNonEmpty(items);
    KeptIsAll(items);
  }

  /** A line of an id that is not hexadecimal makes the reader throw, whatever it has read before. */
  lemma BadIdThrows(text: string, c: Cursor, bad: char)
    requires c.Reading? && c.state == PeerId && |text| >= 64 && bad in text[..64]
    requires !('0' <= bad <= '9' || 'a' <= bad <= 'f' || 'A' <= bad <= 'F')
    ensures Outcome(ReadAll(text, c)) == Failure(NonHexInput)
  {
    var line := text[..64];
    UnhexIff(line);
    EvenTextFails(line);
    hide Unhex;
    OneLine(text, c);
    OneLine(text[64..], ReadLine(c, line));
    hide ReadAll;
  }
}
