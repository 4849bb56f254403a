/** `parse_get_peer_info_result_to_peer_address`: the line-driven reader of a node's address. */
module EsrPeerInfo {
  import opened Wrappers
  import opened Hex
  import opened Abi
  import opened EsrPeers

  const PORT_RANGE := 0x1_0000

  datatype InfoState = NodeCount | Na0 | Na1 | NodePort | NodeHostSize | NodeHost | NodeNameSize | NodeName | Finished

  datatype PeerAddress = PeerAddress(host: seq<byte>, port: nat, httpPort: nat, name: seq<byte>, uuid: string)

  /** The reader between two lines: its variables, or the exception it threw. */
  datatype InfoCursor =
    | AtLine(state: InfoState, textSize: nat, port: nat, host: seq<byte>, name: seq<byte>)
    | InfoThrew(error: HexError)

  function ReadInfoLine(c: InfoCursor, line: string): InfoCursor
    requires c.AtLine?
  {
    match c.state
    case NodeCount => c.(state := Na0)
    case Na0 => c.(state := Na1)
    case Na1 => c.(state := NodePort)
    case NodePort => c.(port := StrToUL(line) % PORT_RANGE, state := NodeHostSize)
    case NodeHostSize => c.(textSize := StrToUL(line), state := NodeHost)
    case NodeHost =>
      (match Unhex(line)
       case Failure(e) => InfoThrew(e)
       case Success(bytes) => c.(host := TrimRightNulls(bytes), state := NodeNameSize))
    case NodeNameSize => c.(textSize := StrToUL(line), state := NodeName, name := [])
    case NodeName =>
      (match Unhex(line)
       case Failure(e) => InfoThrew(e)
       case Success(bytes) =>
         var name := TrimRightNulls(c.name + bytes);
         c.(name := name, state := if c.textSize == |name| then Finished else NodeName))
    case Finished => c
  }

  function ReadInfo(text: string, c: InfoCursor): InfoCursor {
    if !c.AtLine? || |text| < ESR_RESPONSE_LINE_LENGTH then c
    else ReadInfo(text[ESR_RESPONSE_LINE_LENGTH..], ReadInfoLine(c, text[..ESR_RESPONSE_LINE_LENGTH]))
  }

  const INFO_START := AtLine(NodeCount, 0, 0, [], [])

  function Address(c: InfoCursor, peerId: string): Result<PeerAddress, HexError> {
    match c
    case InfoThrew(e) => Failure(e)
    case AtLine(_, _, port, host, name) => Success(PeerAddress(host, port, 0, name, peerId))
  }

  function ParsedInfo(peerId: string, text: string): Result<PeerAddress, HexError> {
    Address(ReadInfo(text, INFO_START), peerId)
  }

  method ParseGetPeerInfoResultToPeerAddress(peerId: string, text: string) returns (r: Result<PeerAddress, HexError>)
    ensures r == ParsedInfo(peerId, text)
  {
    var textSize: nat := 0;
    var port: nat := 0;
    var host: seq<byte> := [];
    var name: seq<byte> := [];
    var state := NodeCount;
    var position := 0;
    assert text[0..] == text;
    while |text| - position >= ESR_RESPONSE_LINE_LENGTH
      invariant position <= |text|
      invariant ReadInfo(text[position..], AtLine(state, textSize, port, host, name)) == ReadInfo(text, INFO_START)
    {
      var line := text[position..position + ESR_RESPONSE_LINE_LENGTH];
      ghost var rest := text[position..];
      assert rest[..ESR_RESPONSE_LINE_LENGTH] == line;
      assert rest[ESR_RESPONSE_LINE_LENGTH..] == text[position + ESR_RESPONSE_LINE_LENGTH..];
      match state {
        case NodeCount =>
          state := Na0;
        case Na0 =>
          state := Na1;
        case Na1 =>
          state := NodePort;
        case NodePort =>
          port := StrToUL(line) % PORT_RANGE;
          state := NodeHostSize;
        case NodeHostSize =>
          textSize := StrToUL(line);
          state := NodeHost;
        case NodeHost =>
          var bytes := Unhex(line);
          if bytes.Failure? {
            return Failure(bytes.error);
          }
          host := TrimRightNulls(bytes.value);
          state := NodeNameSize;
        case NodeNameSize =>
          textSize := StrToUL(line);
          state := NodeName;
          name := [];
        case NodeName =>
          var bytes := Unhex(line);
          if bytes.Failure? {
            return Failure(bytes.error);
          }
          name := name + bytes.value;
          name := TrimRightNulls(name);
          if textSize == |name| {
            state := Finished;
          }
        case Finished =>
      }
      position := position + ESR_RESPONSE_LINE_LENGTH;
    }
    r := Success(PeerAddress(host, port, 0, name, peerId));
  }

  /** The layout the reader expects: count, two words it ignores, port, host and name. */
  function InfoLayout(count: seq<byte>, na0: seq<byte>, na1: seq<byte>, port: nat, host: seq<byte>, name: seq<byte>): seq<byte> {
    count + (na0 + (na1 + (Word(port) + (EncodeString(host) + EncodeString(name)))))
  }

  lemma InfoStep(text: string, c: InfoCursor, word: seq<byte>, rest: seq<byte>)
    requires c.AtLine? && |word| == 32 && Spells(text, word + rest)
    ensures |text| >= 64 && Spells(text[64..], rest) && Spells(text[..64], word)
    ensures StrToUL(text[..64]) == Clamp(Value(word))
    ensures ReadInfo(text, c) == ReadInfo(text[64..], ReadInfoLine(c, text[..64]))
  {
    FirstLine(text, word, rest);
  }

  lemma FixedWordsRead(text: string, c: InfoCursor, count: seq<byte>, na0: seq<byte>, na1: seq<byte>,
                       port: nat, rest: seq<byte>) returns (text': string)
    requires c.AtLine? && c.state == NodeCount
    requires |count| == |na0| == |na1| == 32 && port < ULONG_RANGE
    requires Spells(text, count + (na0 + (na1 + (Word(port) + rest))))
    ensures Spells(text', rest)
    ensures ReadInfo(text, c) == ReadInfo(text', c.(state := NodeHostSize, port := port % PORT_RANGE))
  {
    hide ReadInfo, Unhex, StrToUL, BigEndian, Value;
    InfoStep(text, c, count, na0 + (na1 + (Word(port) + rest)));
    var text1 := text[64..];
    InfoStep(text1, c.(state := Na0), na0, na1 + (Word(port) + rest));
    var text2 := text1[64..];
    InfoStep(text2, c.(state := Na1), na1, Word(port) + rest);
    var text3 := text2[64..];
    SizeFitsWord(port);
    InfoStep(text3, c.(state := NodePort), Word(port), rest);
    text' := text3[64..];
  }

  /** The size of the host is read and ignored, and the next word is the host, whatever it holds. */
  lemma HostRead(text: string, c: InfoCursor, size: seq<byte>, word: seq<byte>, rest: seq<byte>) returns (text': string)
    requires c.AtLine? && c.state == NodeHostSize && |size| == |word| == 32
    requires Spells(text, size + (word + rest))
    ensures Spells(text', rest)
    ensures ReadInfo(text, c) ==
            ReadInfo(text', c.(state := NodeNameSize, textSize := Clamp(Value(size)), host := TrimRightNulls(word)))
  {
    hide ReadInfo, StrToUL, BigEndian, Value, TrimRightNulls;
    InfoStep(text, c, size, word + rest);
    var text1, c1 := text[64..], ReadInfoLine(c, text[..64]);
    InfoStep(text1, c1, word, rest);
    text' := text1[64..];
  }

  lemma NameSizeRead(text: string, c: InfoCursor, nameSize: nat, rest: seq<byte>) returns (text': string)
    requires c.AtLine? && c.state == NodeNameSize && nameSize < ULONG_RANGE && Spells(text, Word(nameSize) + rest)
    ensures Spells(text', rest)
    ensures ReadInfo(text, c) == ReadInfo(text', c.(state := NodeName, textSize := nameSize, name := []))
  {
    hide ReadInfo, StrToUL, BigEndian, Value, Unhex;
    SizeFitsWord(nameSize);
    InfoStep(text, c, Word(nameSize), rest);
    text' := text[64..];
  }

  /** On hexadecimal text the rest of the lines change neither the port nor, past its line, the host. */
  lemma {:induction false} RestKeeps(text: string, c: InfoCursor, bytes: seq<byte>)
    requires c.AtLine? && c.state !in {NodeCount, Na0, Na1, NodePort}
    requires |bytes| % 32 == 0 && Spells(text, bytes)
    ensures var r := ReadInfo(text, c);
            r.AtLine? && r.port == c.port && (c.state !in {NodeHostSize, NodeHost} ==> r.host == c.host)
    decreases |bytes|
  {
    SpellsLength(text, bytes);
    if bytes != [] {
      assert bytes == bytes[..32] + bytes[32..];
      InfoStep(text, c, bytes[..32], bytes[32..]);
      hide ReadInfo, StrToUL, Unhex, TrimRightNulls;
      var c' := ReadInfoLine(c, text[..64]);
      RestKeeps(text[64..], c', bytes[32..]);
    }
  }

  /** No word of the name, and not the name itself, ends in a null. */
  predicate CleanWords(name: seq<byte>, from: nat)
    requires from <= |name|
    decreases |name| - from
  {
    from < |name| ==>
      var end := if from + 32 < |name| then from + 32 else |name|;
      name[end - 1] != 0 && CleanWords(name, end)
  }

  /** A name word that is not the last one. */
  lemma NameStep(text: string, c: InfoCursor, word: seq<byte>, more: seq<byte>) returns (c': InfoCursor)
    requires c.AtLine? && c.state == NodeName && |word| == 32 && Spells(text, word + more)
    requires |c.name| + 32 < c.textSize
    ensures c' == c.(name := TrimRightNulls(c.name + word))
    ensures |text| >= 64 && Spells(text[64..], more) && ReadInfo(text, c) == ReadInfo(text[64..], c')
  {
    hide StrToUL;
    TrimShortens(c.name + word);
    InfoStep(text, c, word, more);
    c' := ReadInfoLine(c, text[..64]);
  }

  /** The last name word, with its padding. */
  lemma LastNameWord(text: string, c: InfoCursor, own: seq<byte>, padding: nat)
    requires c.AtLine? && c.state == NodeName && |own| + padding == 32
    requires Spells(text, own + ZeroBytes(padding))
    ensures var r := ReadInfo(text, c);
            r.AtLine? && r.host == c.host && r.port == c.port && r.name == TrimRightNulls(c.name + own)
  {
    var word := own + ZeroBytes(padding);
    assert word + [] == word;
    hide StrToUL;
    InfoStep(text, c, word, []);
    SpellsLength(text[64..], []);
    assert c.name + word == (c.name + own) + ZeroBytes(padding);
    TrimsPadding(c.name + own, padding);
  }

  lemma NameWords(name: seq<byte>, from: nat)
    requires from < |name| && from % 32 == 0
    ensures from + 32 < |name| ==>
              PadRight(name)[from..] == name[from..from + 32] + PadRight(name)[from + 32..]
    ensures from + 32 >= |name| ==>
              PadRight(name)[from..] == name[from..] + ZeroBytes(PaddingSize(|name|))
              && |name[from..]| + PaddingSize(|name|) == 32
  {
  }

  /** A name read so far that is shorter than what was sent stays too short. */
  lemma {:induction false} ShortNameStaysShort(text: string, c: InfoCursor, name: seq<byte>, from: nat)
    requires c.AtLine? && c.state == NodeName && c.textSize == |name| && from < |name| && from % 32 == 0
    requires |c.name| < from
    requires Spells(text, PadRight(name)[from..])
    ensures var r := ReadInfo(text, c);
            r.AtLine? && |r.name| < |name| && r.host == c.host && r.port == c.port
    decreases |name| - from
  {
    hide Unhex, ReadInfo, TrimRightNulls, PaddingSize, PadRight;
    NameWords(name, from);
    if from + 32 < |name| {
      var word := name[from..from + 32];
      TrimShortens(c.name + word);
      var c' := NameStep(text, c, word, PadRight(name)[from + 32..]);
      ShortNameStaysShort(text[64..], c', name, from + 32);
    } else {
      LastNameWord(text, c, name[from..], PaddingSize(|name|));
      TrimShortens(c.name + name[from..]);
    }
  }

  /** The name comes back whole exactly when none of its words ends in a null. */
  lemma {:induction false} NameRead(text: string, c: InfoCursor, name: seq<byte>, from: nat)
    requires c.AtLine? && c.state == NodeName && c.textSize == |name| && from < |name| && from % 32 == 0
    requires c.name == name[..from]
    requires Spells(text, PadRight(name)[from..])
    ensures var r := ReadInfo(text, c);
            r.AtLine? && r.host == c.host && r.port == c.port && (r.name == name <==> CleanWords(name, from))
    decreases |name| - from
  {
    hide Unhex, ReadInfo, TrimRightNulls, PaddingSize, PadRight;
    NameWords(name, from);
    if from + 32 < |name| {
      var word := name[from..from + 32];
      assert c.name + word == name[..from + 32];
      TrimShortens(c.name + word);
      var c' := NameStep(text, c, word, PadRight(name)[from + 32..]);
      if name[from + 31] != 0 {
        NameRead(text[64..], c', name, from + 32);
      } else {
        ShortNameStaysShort(text[64..], c', name, from + 32);
      }
    } else {
      LastNameWord(text, c, name[from..], PaddingSize(|name|));
      assert c.name + name[from..] == name;
      TrimShortens(name);
    }
  }

  /** An empty name has no words. */
  lemma NoName(text: string, c: InfoCursor)
    requires Spells(text, PadRight([]))
    ensures ReadInfo(text, c) == c
  {
    SpellsLength(text, PadRight([]));
  }

  // The round trip

  /** Everything up to the size of the name, when the word after the size of the host is `word`. */
  lemma HeadRead(text: string, count: seq<byte>, na0: seq<byte>, na1: seq<byte>, port: nat, size: seq<byte>, word: seq<byte>,
                 rest: seq<byte>) returns (text': string, c: InfoCursor)
    requires |count| == |na0| == |na1| == |size| == |word| == 32 && port < ULONG_RANGE
    requires Spells(text, count + (na0 + (na1 + (Word(port) + (size + (word + rest))))))
    ensures Spells(text', rest) && ReadInfo(text, INFO_START) == ReadInfo(text', c)
    ensures c.AtLine? && c.state == NodeNameSize && c.port == port % PORT_RANGE && c.host == TrimRightNulls(word) && c.name == []
  {
    hide ReadInfo, Spells, TrimRightNulls, Value, Clamp;
    var text1 := FixedWordsRead(text, INFO_START, count, na0, na1, port, size + (word + rest));
    var c1 := INFO_START.(state := NodeHostSize, port := port % PORT_RANGE);
    text' := HostRead(text1, c1, size, word, rest);
    c := c1.(state := NodeNameSize, textSize := Clamp(Value(size)), host := TrimRightNulls(word));
  }

  /** The name and its size, when the reader has come to them. */
  lemma WholeNameRead(text: string, c: InfoCursor, name: seq<byte>)
    requires c.AtLine? && c.state == NodeNameSize && |name| < ULONG_RANGE && Spells(text, EncodeString(name))
    ensures var r := ReadInfo(text, c);
            r.AtLine? && r.host == c.host && r.port == c.port && (r.name == name <==> CleanWords(name, 0))
  {
    hide ReadInfo, Spells, TrimRightNulls, PadRight;
    var text1 := NameSizeRead(text, c, |name|, PadRight(name));
    var c1 := c.(state := NodeName, textSize := |name|, name := []);
    assert PadRight(name)[0..] == PadRight(name);
    if name == [] {
      NoName(text1, c1);
      assert CleanWords([], 0);
    } else {
      NameRead(text1, c1, name, 0);
    }
  }

  /** A host the reader has room for: it looks at one word. */
  predicate HostFits(host: seq<byte>) {
    1 <= |host| <= 32 && !EndsInNull(host)
  }

  predicate BothEmpty(host: seq<byte>, name: seq<byte>) {
    host == [] && name == []
  }

  lemma WholeWords(a: seq<byte>, s: seq<byte>)
    requires |a| % 32 == 0
    ensures |a + EncodeString(s)| % 32 == 0 && |EncodeString(s)| % 32 == 0
  {
    var padded := PadRight(s);
    hide Word, PadRight;
  }

  lemma OneWordPadded(host: seq<byte>)
    requires 1 <= |host| <= 32
    ensures |PadRight(host)| == 32 && TrimRightNulls(PadRight(host)) == TrimRightNulls(host)
  {
    TrimsPadding(host, PaddingSize(|host|));
    hide TrimRightNulls;
  }

  lemma OneWordHost(text: string, count: seq<byte>, na0: seq<byte>, na1: seq<byte>, port: nat, host: seq<byte>, name: seq<byte>)
    requires |count| == |na0| == |na1| == 32 && port < ULONG_RANGE && 1 <= |host| <= 32 && |name| < ULONG_RANGE
    requires Spells(text, InfoLayout(count, na0, na1, port, host, name))
    ensures var r := ReadInfo(text, INFO_START);
            && r.AtLine? && r.port == port % PORT_RANGE && (r.host == host <==> !EndsInNull(host))
            && (r.name == name <==> CleanWords(name, 0))
  {
    hide ReadInfo, Spells, TrimRightNulls, Word, PadRight, PaddingSize;
    var word := PadRight(host);
    OneWordPadded(host);
    TrimShortens(host);
    assert EncodeString(host) + EncodeString(name) == Word(|host|) + (word + EncodeString(name));
    hide EncodeString;
    var text1, c := HeadRead(text, count, na0, na1, port, Word(|host|), word, EncodeString(name));
    WholeNameRead(text1, c, name);
  }

  lemma FirstWordOfHost(host: seq<byte>, name: seq<byte>)
    requires |host| > 32
    ensures |PadRight(host)[32..] + EncodeString(name)| % 32 == 0
    ensures EncodeString(host) + EncodeString(name) == Word(|host|) + (host[..32] + (PadRight(host)[32..] + EncodeString(name)))
  {
    assert PadRight(host) == host[..32] + PadRight(host)[32..];
    assert |PadRight(host)[32..]| % 32 == 0;
    WholeWords(PadRight(host)[32..], name);
    hide Word, PadRight;
  }

  /** Of a longer host only the first word is read, and the reader takes the next one for the name's size. */
  lemma LongHost(text: string, count: seq<byte>, na0: seq<byte>, na1: seq<byte>, port: nat, host: seq<byte>, name: seq<byte>)
    requires |count| == |na0| == |na1| == 32 && port < ULONG_RANGE && |host| > 32
    requires Spells(text, InfoLayout(count, na0, na1, port, host, name))
    ensures var r := ReadInfo(text, INFO_START);
            r.AtLine? && r.port == port % PORT_RANGE && r.host == TrimRightNulls(host[..32]) != host
  {
    var word, rest := host[..32], PadRight(host)[32..] + EncodeString(name);
    FirstWordOfHost(host, name);
    TrimShortens(word);
    hide ReadInfo, Spells, TrimRightNulls, EncodeString, Word, PadRight;
    var text1, c := HeadRead(text, count, na0, na1, port, Word(|host|), word, rest);
    RestKeeps(text1, c, rest);
  }

  lemma {:induction false} AllNullsAreZero(s: seq<byte>)
    requires TrimRightNulls(s) == []
    ensures Value(s) == 0
  {
    if s != [] {
      AllNullsAreZero(s[..|s| - 1]);
    }
  }

  lemma TrimmedSize(n: nat)
    requires n < ULONG_RANGE
    ensures TrimRightNulls(Word(n)) == [] <==> n == 0
  {
    if n == 0 {
      LeftPadded(0, 32, 0);
      assert Word(0) == [] + ZeroBytes(32);
      TrimsPadding([], 32);
    } else if TrimRightNulls(Word(n)) == [] {
      SizeFitsWord(n);
      AllNullsAreZero(Word(n));
    }
  }

  /** An empty host has no word, so the reader takes the size of the name for it. */
  lemma NoHost(text: string, count: seq<byte>, na0: seq<byte>, na1: seq<byte>, port: nat, name: seq<byte>)
    requires |count| == |na0| == |na1| == 32 && port < ULONG_RANGE && |name| < ULONG_RANGE
    requires Spells(text, InfoLayout(count, na0, na1, port, [], name))
    ensures var r := ReadInfo(text, INFO_START);
            && r.AtLine? && r.port == port % PORT_RANGE && r.host == TrimRightNulls(Word(|name|))
            && (r.host == [] <==> name == []) && (name == [] ==> r.name == [])
  {
    assert EncodeString([]) + EncodeString(name) == Word(0) + (Word(|name|) + PadRight(name));
    TrimmedSize(|name|);
    assert |PadRight(name)| % 32 == 0;
    hide ReadInfo, Spells, TrimRightNulls, EncodeString, Word, BigEndian;
    var text1, c := HeadRead(text, count, na0, na1, port, Word(0), Word(|name|), PadRight(name));
    RestKeeps(text1, c, PadRight(name));
    if name == [] {
      NoName(text1, c);
    }
  }

  /** The round trip in the reader's own layout. The port comes back modulo 2^16. The host comes back exactly
      when it has 1 to 32 bytes and does not end in a null, or when host and name are both empty; then the
      name comes back exactly when none of its words ends in a null. */
  lemma PeerInfoRoundTrip(peerId: string, text: string, count: seq<byte>, na0: seq<byte>, na1: seq<byte>,
                          port: nat, host: seq<byte>, name: seq<byte>)
    requires |count| == |na0| == |na1| == 32 && port < ULONG_RANGE && |name| < ULONG_RANGE
    requires Spells(text, InfoLayout(count, na0, na1, port, host, name))
    ensures var r := ParsedInfo(peerId, text);
            && r.Success? && r.value.port == port % 0x1_0000 && r.value.httpPort == 0 && r.value.uuid == peerId
            && (r.value.host == host <==> HostFits(host) || BothEmpty(host, name))
            && (1 <= |host| <= 32 ==> (r.value.name == name <==> CleanWords(name, 0)))
            && (r.value.host == host && r.value.name == name <==>
                  (HostFits(host) && CleanWords(name, 0)) || BothEmpty(host, name))
  {
    hide ReadInfo, Spells, TrimRightNulls, InfoLayout, CleanWords, Word;
    if host == [] {
      NoHost(text, count, na0, na1, port, name);
    } else if |host| <= 32 {
      OneWordHost(text, count, na0, na1, port, host, name);
    } else {
      LongHost(text, count, na0, na1, port, host, name);
    }
  }

  // The layout as an ABI encoding

  /** What the reader expects is the encoding of a count, a host, a name and a port. */
  lemma InfoLayoutIsAbi(count: nat, port: nat, host: seq<byte>, name: seq<byte>)
    ensures EncodeTuple([Uint(count), Text(host), Text(name), Uint(port)]) ==
            InfoLayout(Word(count), Word(128), Word(128 + |EncodeString(host)|), port, host, name)
  {
    hide Word, EncodeString;
    var offset := 128 + |EncodeString(host)|;
    var v3 := [Uint(port)] + [];
    var v2 := [Text(name)] + v3;
    var v1 := [Text(host)] + v2;
    assert [Uint(count), Text(host), Text(name), Uint(port)] == [Uint(count)] + v1;
    assert Heads([], offset + |EncodeString(name)|) == [] && Tails([]) == [];
    hide Heads, Tails;
    HeadsStep(Uint(port), [], offset + |EncodeString(name)|);
    HeadsStep(Text(name), v3, offset);
    HeadsStep(Text(host), v2, 128);
    HeadsStep(Uint(count), v1, 128);
    assert [] + (EncodeString(host) + (EncodeString(name) + ([] + []))) == EncodeString(host) + EncodeString(name);
  }

  lemma Flatten(a: seq<byte>, b: seq<byte>, c: seq<byte>, d: seq<byte>, e: seq<byte>, f: seq<byte>, g: seq<byte>, h: seq<byte>)
    ensures a + (b + (c + (d + (e + [])))) + ([] + (f + g + ([] + (h + ([] + [])))))
         == a + (b + (c + (d + (e + (f + (g + h))))))
  {
  }

  function Declared(count: nat, host: seq<byte>, httpPort: nat, name: seq<byte>, port: nat): seq<AbiValue> {
    [Uint(count)] + ([Text(host)] + ([Uint(httpPort)] + ([Text(name)] + ([Uint(port)] + []))))
  }

  lemma DeclaredHeads(count: nat, host: seq<byte>, httpPort: nat, name: seq<byte>, port: nat)
    ensures Heads(Declared(count, host, httpPort, name, port), 160) ==
            Word(count) + (Word(160) + (Word(httpPort) + (Word(160 + |EncodeString(host)|) + (Word(port) + []))))
  {
    var offset := 160 + |EncodeString(host)|;
    hide Word, EncodeString;
    assert Heads([], offset + |EncodeString(name)|) == [];
    hide Heads;
    HeadsStep(Uint(port), [], offset + |EncodeString(name)|);
    HeadsStep(Text(name), [Uint(port)] + [], offset);
    HeadsStep(Uint(httpPort), [Text(name)] + ([Uint(port)] + []), offset);
    HeadsStep(Text(host), [Uint(httpPort)] + ([Text(name)] + ([Uint(port)] + [])), 160);
    HeadsStep(Uint(count), [Text(host)] + ([Uint(httpPort)] + ([Text(name)] + ([Uint(port)] + []))), 160);
  }

  lemma DeclaredTails(count: nat, host: seq<byte>, httpPort: nat, name: seq<byte>, port: nat)
    ensures Tails(Declared(count, host, httpPort, name, port)) ==
            [] + (EncodeString(host) + ([] + (EncodeString(name) + ([] + []))))
  {
    hide Word, EncodeString;
    assert Tails([]) == [];
    hide Tails;
    HeadsStep(Uint(port), [], 0);
    HeadsStep(Text(name), [Uint(port)] + [], 0);
    HeadsStep(Uint(httpPort), [Text(name)] + ([Uint(port)] + []), 0);
    HeadsStep(Text(host), [Uint(httpPort)] + ([Text(name)] + ([Uint(port)] + [])), 0);
    HeadsStep(Uint(count), [Text(host)] + ([Uint(httpPort)] + ([Text(name)] + ([Uint(port)] + []))), 0);
  }

  /** The encoding of what the ABI declares: a count, a host, an HTTP port, a name and a port. */
  lemma DeclaredLayout(count: nat, host: seq<byte>, httpPort: nat, name: seq<byte>, port: nat)
    ensures EncodeTuple([Uint(count), Text(host), Uint(httpPort), Text(name), Uint(port)]) ==
            Word(count) + (Word(160) + (Word(httpPort) + (Word(192 + |PadRight(host)|)
            + (Word(port) + (Word(|host|) + (PadRight(host) + EncodeString(name)))))))
  {
    assert Declared(count, host, httpPort, name, port) == [Uint(count), Text(host), Uint(httpPort), Text(name), Uint(port)];
    assert EncodeString(host) == Word(|host|) + PadRight(host);
    DeclaredHeads(count, host, httpPort, name, port);
    DeclaredTails(count, host, httpPort, name, port);
    hide Word, EncodeString, PadRight, Heads, Tails, Declared;
    Flatten(Word(count), Word(160), Word(httpPort), Word(192 + |PadRight(host)|), Word(port), Word(|host|), PadRight(host),
            EncodeString(name));
  }

  /** Given what the ABI declares, the reader takes the offset of the name for the port, and the size of the
      host for the host. */
  lemma DeclaredLayoutIsMisread(peerId: string, text: string, count: nat, host: seq<byte>, httpPort: nat, name: seq<byte>, port: nat)
    requires Spells(text, EncodeTuple([Uint(count), Text(host), Uint(httpPort), Text(name), Uint(port)]))
    requires 192 + |PadRight(host)| < ULONG_RANGE
    ensures var r := ParsedInfo(peerId, text);
            && r.Success? && r.value.host == TrimRightNulls(Word(|host|))
            && r.value.port == (192 + |PadRight(host)|) % 0x1_0000
            && (r.value.port == port % 0x1_0000 <==> (port - 192 - |PadRight(host)|) % 0x1_0000 == 0)
  {
    var rest, offset := PadRight(host) + EncodeString(name), 192 + |PadRight(host)|;
    WholeWords(PadRight(host), name);
    SameRemainder(port, offset);
    hide ReadInfo, Spells, TrimRightNulls, EncodeString, Word, PadRight, EncodeTuple;
    DeclaredLayout(count, host, httpPort, name, port);
    var text1, c := HeadRead(text, Word(count), Word(160), Word(httpPort), offset, Word(port), Word(|host|), rest);
    RestKeeps(text1, c, rest);
  }

  lemma SameRemainder(a: int, b: int)
    ensures b % PORT_RANGE == a % PORT_RANGE <==> (a - b) % PORT_RANGE == 0
  {
  }

  /** In particular hosts and names without nulls always come back. */
  lemma {:induction false} NullFreeIsClean(name: seq<byte>, from: nat)
    requires from <= |name| && forall i | from <= i < |name| :: name[i] != 0
    ensures CleanWords(name, from)
    decreases |name| - from
  {
    if from < |name| {
      NullFreeIsClean(name, if from + 32 < |name| then from + 32 else |name|);
    }
  }

  /** A line of the host or the name that is not hexadecimal makes the reader throw. */
  lemma BadLineThrows(peerId: string, text: string, c: InfoCursor, bad: char)
    requires c.AtLine? && c.state in {NodeHost, NodeName} && |text| >= 64 && bad in text[..64]
    requires !('0' <= bad <= '9' || 'a' <= bad <= 'f' || 'A' <= bad <= 'F')
    ensures Address(ReadInfo(text, c), peerId) == Failure(NonHexInput)
  {
    var line := text[..64];
    UnhexIff(line);
    EvenTextFails(line);
    hide Unhex;
    var c' := ReadInfoLine(c, line);
    assert c' == InfoThrew(NonHexInput);
    assert ReadInfo(text, c) == ReadInfo(text[64..], c') == c';
  }
}
