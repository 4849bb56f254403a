/** `crypto::deterministic_serialize`: the byte string that is signed, and the decoder that shows no two
    envelopes share it. */
module Serializer {
  import opened Wrappers

  datatype PayloadCase =
    | PayloadNotSet | DatabaseMsg | PbftInternalRequest | DatabaseResponse | Json | Audit | Pbft
    | PbftMembership | StatusRequest | StatusResponse | CheckpointMsg | SwarmError

  datatype Envelope = Envelope(
    swarmId: string, sender: string, signature: string, timestamp: nat, payloadCase: PayloadCase, payload: string)

  /** The field number of the oneof case, which is what the generated enum holds. */
  function CaseNumber(c: PayloadCase): nat {
    match c
    case PayloadNotSet => 0
    case DatabaseMsg => 10
    case PbftInternalRequest => 11
    case DatabaseResponse => 12
    case Json => 13
    case Audit => 14
    case Pbft => 15
    case PbftMembership => 16
    case StatusRequest => 17
    case StatusResponse => 18
    case CheckpointMsg => 19
    case SwarmError => 20
  }

  const DIGITS := "0123456789"

  /** `std::to_string` of an unsigned number. */
  function ToString(n: nat): string {
    if n < 10 then [DIGITS[n]] else ToString(n / 10) + [DIGITS[n % 10]]
  }

  function ExtractPayload(msg: Envelope): Result<string, string> {
    match msg.payloadCase
    case DatabaseMsg => Success(msg.payload)
    case DatabaseResponse => Success(msg.payload)
    case StatusRequest => Success(msg.payload)
    case StatusResponse => Success(msg.payload)
    case other => Failure("Crypto does not know how to handle a message with type " + ToString(CaseNumber(other)))
  }

  function Token(t: string): string {
    ToString(|t|) + "|" + t
  }

  function Framed(tokens: seq<string>): string {
    if tokens == [] then "" else Token(tokens[0]) + Framed(tokens[1..])
  }

  function Tokens(msg: Envelope): seq<string> {
    [msg.sender, ToString(CaseNumber(msg.payloadCase)), msg.payload, ToString(msg.timestamp)]
  }

  function Serialized(msg: Envelope): string {
    Framed(Tokens(msg))
  }

  method DeterministicSerialize(msg: Envelope) returns (r: Result<string, string>)
    ensures msg.payloadCase in {DatabaseMsg, DatabaseResponse, StatusRequest, StatusResponse} ==> r == Success(Serialized(msg))
    ensures msg.payloadCase !in {DatabaseMsg, DatabaseResponse, StatusRequest, StatusResponse} ==>
              r == Failure("Crypto does not know how to handle a message with type " + ToString(CaseNumber(msg.payloadCase)))
  {
    var payload := ExtractPayload(msg);
    if payload.Failure? {
      return payload;
    }
    var tokens := [msg.sender, ToString(CaseNumber(msg.payloadCase)), payload.value, ToString(msg.timestamp)];
    var result := "";
    assert tokens[0..] == tokens;
    for i := 0 to |tokens|
      invariant result + Framed(tokens[i..]) == Framed(tokens)
    {
      result := result + (ToString(|tokens[i]|) + "|" + tokens[i]);
      assert tokens[i..][1..] == tokens[i + 1..];
    }
    assert tokens == Tokens(msg) && tokens[|tokens|..] == [];
    assert result + "" == result;
    r := Success(result);
  }

  // The decoder

  /** The number spelled by the digits up to the next bar, continuing from what was read so far, and the
      text after that bar. */
  function ReadNumber(s: string, soFar: nat): Option<(nat, string)> {
    if s == "" then None
    else if s[0] == '|' then Some((soFar, s[1..]))
    else if '0' <= s[0] <= '9' then ReadNumber(s[1..], 10 * soFar + (s[0] - '0') as nat)
    else None
  }

  function ReadToken(s: string): Option<(string, string)> {
    match ReadNumber(s, 0)
    case None => None
    case Some((length, rest)) => if length <= |rest| then Some((rest[..length], rest[length..])) else None
  }

  function ReadTokens(s: string, count: nat): Option<(seq<string>, string)>
    decreases count
  {
    if count == 0 then Some(([], s))
    else match ReadToken(s)
      case None => None
      case Some((token, rest)) =>
        match ReadTokens(rest, count - 1)
        case None => None
        case Some((tokens, end)) => Some(([token] + tokens, end))
  }

  /** The four fields a signature covers. */
  datatype Signed = Signed(sender: string, caseNumber: nat, payload: string, timestamp: nat)

  function SignedPart(msg: Envelope): Signed {
    Signed(msg.sender, CaseNumber(msg.payloadCase), msg.payload, msg.timestamp)
  }

  function Decode(s: string): Option<(Signed, string)> {
    match ReadTokens(s, 4)
    case None => None
    case Some((tokens, rest)) =>
      if |tokens| != 4 then None
      else
        var caseNumber := ReadNumber(tokens[1] + "|", 0);
        var timestamp := ReadNumber(tokens[3] + "|", 0);
        if caseNumber.None? || timestamp.None? then None
        else Some((Signed(tokens[0], caseNumber.value.0, tokens[2], timestamp.value.0), rest))
  }

  lemma {:induction false} ReadsItsDigits(n: nat, rest: string)
    ensures ReadNumber(ToString(n) + rest, 0) == ReadNumber(rest, n)
  {
    if n < 10 {
      assert ([DIGITS[n]] + rest)[1..] == rest;
    } else {
      var last := [DIGITS[n % 10]];
      ReadsItsDigits(n / 10, last + rest);
      assert ToString(n / 10) + (last + rest) == ToString(n) + rest;
      assert (last + rest)[1..] == rest;
    }
  }

  lemma ReadsItsNumber(n: nat, rest: string)
    ensures ReadNumber(ToString(n) + "|" + rest, 0) == Some((n, rest))
  {
    ReadsItsDigits(n, "|" + rest);
    assert ToString(n) + "|" + rest == ToString(n) + ("|" + rest);
    assert ("|" + rest)[1..] == rest;
  }

  lemma ReadsItsToken(t: string, rest: string)
    ensures ReadToken(Token(t) + rest) == Some((t, rest))
  {
    ReadsItsNumber(|t|, t + rest);
    assert Token(t) + rest == ToString(|t|) + "|" + (t + rest);
    assert (t + rest)[..|t|] == t && (t + rest)[|t|..] == rest;
  }

  /** Framed tokens read back as they were, bars and digits in them notwithstanding. */
  lemma {:induction false} ReadsItsTokens(tokens: seq<string>, rest: string)
    ensures ReadTokens(Framed(tokens) + rest, |tokens|) == Some((tokens, rest))
  {
    if tokens == [] {
      assert "" + rest == rest;
    } else {
      var after := Framed(tokens[1..]) + rest;
      assert Framed(tokens) + rest == Token(tokens[0]) + after;
      ReadsItsToken(tokens[0], after);
      ReadsItsTokens(tokens[1..], rest);
      assert [tokens[0]] + tokens[1..] == tokens;
      hide Framed, Token, ReadToken;
    }
  }

  /** The decoder recovers the signed fields of any envelope, whatever follows its serialization. */
  lemma DecodesBack(msg: Envelope, rest: string)
    ensures Decode(Serialized(msg) + rest) == Some((SignedPart(msg), rest))
  {
    ReadsItsTokens(Tokens(msg), rest);
    ReadsItsNumber(CaseNumber(msg.payloadCase), "");
    ReadsItsNumber(msg.timestamp, "");
    assert ToString(msg.timestamp) + "|" + "" == ToString(msg.timestamp) + "|";
    assert ToString(CaseNumber(msg.payloadCase)) + "|" + "" == ToString(CaseNumber(msg.payloadCase)) + "|";
  }

  lemma CaseText(number: nat)
    requires 10 <= number < 100
    ensures ToString(number) == [DIGITS[number / 10], DIGITS[number % 10]]
  {
    assert ToString(number / 10) == [DIGITS[number / 10]];
  }

  /** The bytes that are signed, with the field numbers of the four payloads that can be. */
  lemma SignedBytes(msg: Envelope)
    ensures var before := ToString(|msg.sender|) + "|" + msg.sender;
            var time := ToString(msg.timestamp);
            var after := ToString(|msg.payload|) + "|" + msg.payload + (ToString(|time|) + "|" + time);
            && (msg.payloadCase == DatabaseMsg ==> Serialized(msg) == before + "2|10" + after)
            && (msg.payloadCase == DatabaseResponse ==> Serialized(msg) == before + "2|12" + after)
            && (msg.payloadCase == StatusRequest ==> Serialized(msg) == before + "2|17" + after)
            && (msg.payloadCase == StatusResponse ==> Serialized(msg) == before + "2|18" + after)
  {
    var time, number := ToString(msg.timestamp), CaseNumber(msg.payloadCase);
    if 10 <= number {
      CaseText(number);
      CaseToken(number);
      hide ToString, Framed;
      FourTokens(msg.sender, ToString(number), msg.payload, time);
      hide Token;
      TokenOf(msg.sender);
      TokenOf(msg.payload);
      TokenOf(time);
    }
  }

  lemma TokenOf(t: string)
    ensures Token(t) == ToString(|t|) + "|" + t
  {
  }

  lemma CaseToken(number: nat)
    requires 10 <= number < 100
    ensures Token(ToString(number)) == "2|" + ToString(number)
  {
    CaseText(number);
    assert ToString(2) == "2";
    hide ToString;
  }

  lemma FourTokens(a: string, b: string, c: string, d: string)
    ensures Framed([a, b, c, d]) == Token(a) + Token(b) + (Token(c) + Token(d))
  {
    hide Token;
    assert [a, b, c, d][1..] == [b, c, d] && [b, c, d][1..] == [c, d] && [c, d][1..] == [d] && [d][1..] == [];
    assert Framed([d]) == Token(d) + "" == Token(d);
    assert Framed([c, d]) == Token(c) + Token(d);
    assert Framed([b, c, d]) == Token(b) + (Token(c) + Token(d));
    assert Framed([a, b, c, d]) == Token(a) + (Token(b) + (Token(c) + Token(d)));
  }

  lemma CaseNumbersDiffer(a: PayloadCase, b: PayloadCase)
    ensures CaseNumber(a) == CaseNumber(b) <==> a == b
  {
  }

  /** Two envelopes serialize alike exactly when they agree on the four signed fields; in particular the
      swarm id and the signature itself are not covered. */
  lemma SameBytesIffSameFields(a: Envelope, b: Envelope)
    ensures Serialized(a) == Serialized(b) <==>
            a.sender == b.sender && a.payloadCase == b.payloadCase && a.payload == b.payload && a.timestamp == b.timestamp
  {
    DecodesBack(a, "");
    DecodesBack(b, "");
    CaseNumbersDiffer(a.payloadCase, b.payloadCase);
    if Serialized(a) == Serialized(b) {
      assert SignedPart(a) == SignedPart(b);
    }
  }

  /** No serialization is a proper prefix of another. */
  lemma NeverAProperPrefix(a: Envelope, b: Envelope)
    requires Serialized(a) <= Serialized(b)
    ensures Serialized(a) == Serialized(b) && SignedPart(a) == SignedPart(b)
  {
    var rest := Serialized(b)[|Serialized(a)|..];
    assert Serialized(b) == Serialized(a) + rest;
    assert Serialized(b) == Serialized(b) + "";
    DecodesBack(a, rest);
    DecodesBack(b, "");
  }
}
