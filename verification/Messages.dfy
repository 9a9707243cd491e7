/** Protocol messages and their byte form: `Message.to_bytes`, `Message.from_bytes`, and the signature that
    `AgentProtocol._send_message` splices into a serialised message. */
module Messages {
  import opened Wrappers
  import opened Json
  import opened JsonLaws

  type Byte = x: int | 0 <= x < 256

  type Bytes = seq<Byte>

  datatype MessageType =
    | Hello | HelloAck | Goodbye | Heartbeat | HeartbeatAck | Command | CommandResult
    | Metrics | Health | Events | ConfigSync | Error | Nack

  function Name(kind: MessageType): string {
    match kind
    case Hello => "HELLO"
    case HelloAck => "HELLO_ACK"
    case Goodbye => "GOODBYE"
    case Heartbeat => "HEARTBEAT"
    case HeartbeatAck => "HEARTBEAT_ACK"
    case Command => "COMMAND"
    case CommandResult => "COMMAND_RESULT"
    case Metrics => "METRICS"
    case Health => "HEALTH"
    case Events => "EVENTS"
    case ConfigSync => "CONFIG_SYNC"
    case Error => "ERROR"
    case Nack => "NACK"
  }

  const ALL_KINDS: seq<MessageType> := [
    Hello, HelloAck, Goodbye, Heartbeat, HeartbeatAck, Command, CommandResult,
    Metrics, Health, Events, ConfigSync, Error, Nack]

  /** `MessageType[name]` */
  function KindOf(name: Text): Option<MessageType> { FindKind(name, ALL_KINDS) }

  function FindKind(name: Text, kinds: seq<MessageType>): Option<MessageType> {
    if kinds == [] then None
    else if Txt(Name(kinds[0])) == name then Some(kinds[0])
    else FindKind(name, kinds[1..])
  }

  /** The identifier, the timestamp and `replyTo` hold whatever JSON value the peer sent: `from_bytes` does not
      check them.  Python's `None` is the word null. */
  datatype Message = Message(
    kind: MessageType, payload: Value, id: Value, ts: Value, replyTo: Value, signature: Option<Text>)

  const NULL: Value := Lit(Null)

  /** Has a digit other than 0 before its exponent. */
  predicate NonZero(literal: Text) {
    literal != [] && literal[0] !in {'e' as int, 'E' as int} &&
    ('1' as int <= literal[0] <= '9' as int || NonZero(literal[1..]))
  }

  /** Python truth value. */
  predicate Truthy(v: Value) {
    match v
    case Lit(w) => w != Null && w != False
    case Num(l) => NonZero(l)
    case Str(t) => t != []
    case Arr(items) => items.Item?
    case Obj(members) => members.Member?
  }

  /** Every number in the message prints as a JSON number, as every Python number does. */
  predicate Sendable(m: Message) {
    NumbersOk(m.payload) && NumbersOk(m.id) && NumbersOk(m.ts) && NumbersOk(m.replyTo)
  }

  /** The dict `to_bytes` dumps, followed by `extra`. */
  function Fields(m: Message, extra: Members): Members {
    Record(Str(Txt(Name(m.kind))), m.id, m.ts, m.payload, if Truthy(m.replyTo) then Some(m.replyTo) else None, extra)
  }

  function Record(kind: Value, id: Value, ts: Value, payload: Value, reply: Option<Value>, extra: Members): Members {
    Member(Txt("type"), kind, Member(Txt("id"), id, Late(ts, payload, reply, extra)))
  }

  function Late(ts: Value, payload: Value, reply: Option<Value>, extra: Members): Members {
    Member(Txt("ts"), ts, Member(Txt("payload"), payload, Reply(reply, extra)))
  }

  function Reply(reply: Option<Value>, extra: Members): Members {
    if reply.Some? then Member(Txt("reply_to"), reply.value, extra) else extra
  }

  lemma FieldsOk(m: Message, extra: Members)
    requires Sendable(m) && MembersOk(extra)
    ensures NumbersOk(Obj(Fields(m, extra)))
  {
    var reply := if Truthy(m.replyTo) then Some(m.replyTo) else None;
    assert MembersOk(Reply(reply, extra));
    assert MembersOk(Late(m.ts, m.payload, reply, extra));
  }

  /** `str.encode()` of ASCII text. */
  function AsBytes(t: Text): Bytes
    requires Printable(t)
  {
    t
  }

  function ToBytes(m: Message): (b: Bytes)
    requires Sendable(m)
    ensures Printable(b) && |b| >= 2 && b[|b| - 1] == RBRACE
  {
    FieldsOk(m, NoMembers);
    EncodeAscii(Obj(Fields(m, NoMembers)));
    AsBytes(Encode(Obj(Fields(m, NoMembers))))
  }

  predicate IsHex(sig: Text) {
    forall i :: 0 <= i < |sig| ==> IsDigit(sig[i]) || 'a' as int <= sig[i] <= 'f' as int
  }

  /** The serialised message with its last brace replaced by `,"sig":"<hex>"}`. */
  function Spliced(data: Bytes, sig: Text): (b: Bytes)
    requires data != [] && IsHex(sig)
    ensures |b| == |data| + 9 + |sig|
  {
    data[..|data| - 1] + AsBytes(Txt(",\"sig\":\"")) + AsBytes(sig) + AsBytes(Txt("\"}"))
  }

  // ---------------------------------------------------------------------------------------------
  // Reading
  // ---------------------------------------------------------------------------------------------

  predicate IsTrail(b: Byte) { 0x80 <= b < 0xC0 }

  /** `bytes.decode()`: strict UTF-8. */
  function DecodeUtf8(b: Bytes): Option<Text> {
    if b == [] then Some([])
    else if b[0] < 0x80 then
      var t :- DecodeUtf8(b[1..]);
      Some([b[0]] + t)
    else if |b| >= 2 && 0xC2 <= b[0] < 0xE0 && IsTrail(b[1]) then
      var t :- DecodeUtf8(b[2..]);
      Some([b[0] as int % 32 * 64 + b[1] as int % 64] + t)
    else if |b| >= 3 && 0xE0 <= b[0] < 0xF0 && IsTrail(b[1]) && IsTrail(b[2]) then
      var c := b[0] as int % 16 * 4096 + b[1] as int % 64 * 64 + b[2] as int % 64;
      if c < 0x800 || IsHigh(c) || IsLow(c) then None
      else
        var t :- DecodeUtf8(b[3..]);
        Some([c] + t)
    else if |b| >= 4 && 0xF0 <= b[0] < 0xF5 && IsTrail(b[1]) && IsTrail(b[2]) && IsTrail(b[3]) then
      var c := b[0] as int % 8 * 262144 + b[1] as int % 64 * 4096 + b[2] as int % 64 * 64 + b[3] as int % 64;
      if c < 0x10000 || c > 0x10FFFF then None
      else
        var t :- DecodeUtf8(b[4..]);
        Some([c] + t)
    else None
  }

  /** `NotJson` is the one failure `_receive_message` catches; any other exception (bad UTF-8, no such key,
      unknown message type, not an object) leaves it. */
  datatype Decoded = Decoded(message: Message) | NotJson | Raises

  function FromValue(v: Value): Decoded {
    if !v.Obj? then Raises
    else
      var kind, id, ts := Get(v.members, Txt("type")), Get(v.members, Txt("id")), Get(v.members, Txt("ts"));
      if kind.None? || !kind.value.Str? || KindOf(kind.value.text).None? || id.None? || ts.None? then Raises
      else
        var payload, replyTo := Get(v.members, Txt("payload")), Get(v.members, Txt("reply_to"));
        Decoded(Message(
                  KindOf(kind.value.text).value,
                  if payload.Some? then payload.value else Obj(NoMembers),
                  id.value,
                  ts.value,
                  if replyTo.Some? then replyTo.value else NULL,
                  None))
  }

  function FromBytes(b: Bytes): Decoded {
    var text := DecodeUtf8(b);
    if text.None? then Raises
    else
      var v := Loads(text.value);
      if v.None? then NotJson else FromValue(v.value)
  }

  /** `Message.verify` against the signature the token would make. */
  predicate Verifies(m: Message, expected: Text) {
    m.signature.Some? && m.signature.value != [] && m.signature.value == expected
  }

  // ---------------------------------------------------------------------------------------------
  // Round trips
  // ---------------------------------------------------------------------------------------------

  /** What the receiver holds after the sender's `m` went over the wire. */
  function Received(m: Message): Message {
    Message(m.kind, Canon(m.payload), Canon(m.id), Canon(m.ts),
            if Truthy(m.replyTo) then Canon(m.replyTo) else NULL, None)
  }

  lemma {:induction false} Utf8Ascii(b: Bytes)
    requires Printable(b)
    ensures DecodeUtf8(b) == Some(b)
  {
    if b != [] {
      Utf8Ascii(b[1..]);
      assert [b[0]] + b[1..] == b;
    }
  }

  lemma {:induction false} JoinTxt(s: string)
    ensures Join(Txt(s)) == Txt(s)
  {
    JoinIdentity(Txt(s));
  }

  lemma KindNamed(kind: MessageType)
    ensures KindOf(Txt(Name(kind))) == Some(kind)
  {
    forall a: MessageType, b: MessageType | Txt(Name(a)) == Txt(Name(b)) ensures a == b {
      TxtInjective(Name(a), Name(b));
      NamesDistinct(a, b);
    }
    FindKindFinds(kind, ALL_KINDS);
  }

  lemma TxtInjective(a: string, b: string)
    requires Txt(a) == Txt(b)
    ensures a == b
  {
    assert |a| == |Txt(a)| == |Txt(b)| == |b|;
    forall i | 0 <= i < |a| ensures a[i] == b[i] {
      assert Txt(a)[i] == a[i] as int && Txt(b)[i] == b[i] as int;
    }
  }

  /** Length and two characters tell the names apart. */
  lemma NamesDistinct(a: MessageType, b: MessageType)
    requires Name(a) == Name(b)
    ensures a == b
  {
    assert |Name(a)| == |Name(b)| && Name(a)[0] == Name(b)[0] && Name(a)[1] == Name(b)[1];
  }

  lemma {:induction false} FindKindFinds(kind: MessageType, kinds: seq<MessageType>)
    requires kind in kinds
    requires forall a: MessageType, b: MessageType :: Txt(Name(a)) == Txt(Name(b)) ==> a == b
    ensures FindKind(Txt(Name(kind)), kinds) == Some(kind)
  {
    if kinds[0] != kind {
      FindKindFinds(kind, kinds[1..]);
    }
  }

  lemma KeysDistinct()
    ensures Txt("type") != Txt("id") && Txt("type") != Txt("ts") && Txt("type") != Txt("payload")
    ensures Txt("type") != Txt("reply_to") && Txt("type") != Txt("sig") && Txt("id") != Txt("ts")
    ensures Txt("id") != Txt("payload") && Txt("id") != Txt("reply_to") && Txt("id") != Txt("sig")
    ensures Txt("ts") != Txt("payload") && Txt("ts") != Txt("reply_to") && Txt("ts") != Txt("sig")
    ensures Txt("payload") != Txt("reply_to") && Txt("payload") != Txt("sig") && Txt("reply_to") != Txt("sig")
  {
    assert Txt("id")[0] == 'i' as int && Txt("ts")[0] == 't' as int;
  }

  function CanonOption(v: Option<Value>): Option<Value> {
    if v.Some? then Some(Canon(v.value)) else None
  }

  lemma CanonMember(key: string, value: Value, rest: Members)
    ensures CanonMembers(Member(Txt(key), value, rest)) == Member(Txt(key), Canon(value), CanonMembers(rest))
  {
    JoinTxt(key);
  }

  lemma CanonRecord(kind: Value, id: Value, ts: Value, payload: Value, reply: Option<Value>, extra: Members)
    ensures CanonMembers(Record(kind, id, ts, payload, reply, extra))
         == Record(Canon(kind), Canon(id), Canon(ts), Canon(payload), CanonOption(reply), CanonMembers(extra))
  {
    var r := Reply(reply, extra);
    var late := Late(ts, payload, reply, extra);
    if reply.Some? {
      CanonMember("reply_to", reply.value, extra);
    }
    CanonMember("payload", payload, r);
    CanonMember("ts", ts, Member(Txt("payload"), payload, r));
    CanonMember("id", id, late);
    CanonMember("type", kind, Member(Txt("id"), id, late));
  }

  /** `extra` is at most a signature. */
  predicate AtMostSig(extra: Members) {
    extra.Member? ==> extra.key == Txt("sig") && extra.rest.NoMembers?
  }

  lemma ExtraKey(extra: Members, key: Text)
    requires AtMostSig(extra) && key != Txt("sig")
    ensures !HasKey(extra, key) && Get(extra, key).None? && DistinctKeys(extra)
  {
  }

  lemma LookupReply(reply: Option<Value>, extra: Members)
    requires AtMostSig(extra)
    ensures var ms := Reply(reply, extra);
            && DistinctKeys(ms) && Get(ms, Txt("reply_to")) == reply
            && !HasKey(ms, Txt("type")) && !HasKey(ms, Txt("id"))
            && !HasKey(ms, Txt("ts")) && !HasKey(ms, Txt("payload"))
  {
    KeysDistinct();
    ExtraKey(extra, Txt("type"));
    ExtraKey(extra, Txt("id"));
    ExtraKey(extra, Txt("ts"));
    ExtraKey(extra, Txt("payload"));
    ExtraKey(extra, Txt("reply_to"));
  }

  lemma LookupLate(ts: Value, payload: Value, reply: Option<Value>, extra: Members)
    requires AtMostSig(extra)
    ensures var ms := Late(ts, payload, reply, extra);
            && DistinctKeys(ms) && !HasKey(ms, Txt("type")) && !HasKey(ms, Txt("id"))
            && Get(ms, Txt("ts")) == Some(ts) && Get(ms, Txt("payload")) == Some(payload)
            && Get(ms, Txt("reply_to")) == reply
  {
    KeysDistinct();
    LookupReply(reply, extra);
  }

  /** Lookups in the dict that comes back. */
  lemma Lookup(kind: Value, id: Value, ts: Value, payload: Value, reply: Option<Value>, extra: Members)
    requires AtMostSig(extra)
    ensures var ms := Record(kind, id, ts, payload, reply, extra);
            && DistinctKeys(ms) && Get(ms, Txt("type")) == Some(kind) && Get(ms, Txt("id")) == Some(id)
            && Get(ms, Txt("ts")) == Some(ts) && Get(ms, Txt("payload")) == Some(payload)
            && Get(ms, Txt("reply_to")) == reply
  {
    KeysDistinct();
    LookupLate(ts, payload, reply, extra);
  }

  lemma ReadRecord(kind: MessageType, id: Value, ts: Value, payload: Value, reply: Option<Value>, extra: Members)
    requires AtMostSig(extra)
    ensures FromValue(Obj(Record(Str(Txt(Name(kind))), id, ts, payload, reply, extra)))
         == Decoded(Message(kind, payload, id, ts, if reply.Some? then reply.value else NULL, None))
  {
    Lookup(Str(Txt(Name(kind))), id, ts, payload, reply, extra);
    KindNamed(kind);
  }

  /** Reading the dict that was dumped, with or without a signature at its end, gives the message. */
  lemma ReadFields(m: Message, extra: Members)
    requires AtMostSig(extra)
    ensures FromValue(Canon(Obj(Fields(m, extra)))) == Decoded(Received(m))
  {
    var reply := if Truthy(m.replyTo) then Some(m.replyTo) else None;
    var kind := Str(Txt(Name(m.kind)));
    var ms := Record(kind, Canon(m.id), Canon(m.ts), Canon(m.payload), CanonOption(reply), CanonMembers(extra));
    JoinTxt(Name(m.kind));
    JoinTxt("sig");
    CanonRecord(kind, m.id, m.ts, m.payload, reply, extra);
    Lookup(kind, Canon(m.id), Canon(m.ts), Canon(m.payload), CanonOption(reply), CanonMembers(extra));
    NewDict(ms);
    assert Canon(Obj(Fields(m, extra))) == Obj(ms);
    ReadRecord(m.kind, Canon(m.id), Canon(m.ts), Canon(m.payload), CanonOption(reply), CanonMembers(extra));
  }

  /** Serialise, then parse. */
  lemma RoundTrip(m: Message)
    requires Sendable(m)
    ensures FromBytes(ToBytes(m)) == Decoded(Received(m))
  {
    Utf8Ascii(ToBytes(m));
    FieldsOk(m, NoMembers);
    LoadsDumps(Obj(Fields(m, NoMembers)));
    ReadFields(m, NoMembers);
  }

  lemma {:induction false} PlainText(t: Text)
    requires Printable(t) && QUOTE !in t && BACKSLASH !in t
    ensures EncodeText(t) == t
  {
    if t != [] {
      PlainText(t[1..]);
      assert [t[0]] + t[1..] == t;
    }
  }

  lemma LonePair(key: Text, value: Value)
    ensures EncodeMembers(Member(key, value, NoMembers)) == EncodePair(key, value)
  {
    assert EncodePair(key, value) + [] == EncodePair(key, value);
  }

  lemma {:induction false} OneMore(ms: Members, key: Text, value: Value)
    requires ms.Member?
    ensures EncodeMembers(Append(ms, Member(key, value, NoMembers)))
         == EncodeMembers(ms) + ([COMMA] + EncodePair(key, value))
  {
    var last := [COMMA] + EncodePair(key, value);
    var more := Append(ms.rest, Member(key, value, NoMembers));
    assert EncodeMembers(Append(ms, Member(key, value, NoMembers)))
        == EncodePair(ms.key, ms.value) + MoreMembers(more);
    if ms.rest.NoMembers? {
      LonePair(key, value);
    } else {
      OneMore(ms.rest, key, value);
      assert MoreMembers(more) == MoreMembers(ms.rest) + last;
    }
  }

  lemma AppendExtra(m: Message, extra: Members)
    ensures Append(Fields(m, NoMembers), extra) == Fields(m, extra)
  {
    var reply := if Truthy(m.replyTo) then Some(m.replyTo) else None;
    assert Append(Reply(reply, NoMembers), extra) == Reply(reply, extra);
    assert Append(Late(m.ts, m.payload, reply, NoMembers), extra) == Late(m.ts, m.payload, reply, extra);
  }

  lemma PairText(sig: Text)
    requires IsHex(sig)
    ensures EncodePair(Txt("sig"), Str(sig)) == [QUOTE] + Txt("sig") + [QUOTE] + ([COLON] + ([QUOTE] + sig + [QUOTE]))
  {
    PlainText(Txt("sig"));
    PlainText(sig);
  }

  lemma SpliceText(sig: Text)
    requires IsHex(sig)
    ensures Txt(",\"sig\":\"") + sig + Txt("\"}") == [COMMA] + EncodePair(Txt("sig"), Str(sig)) + [RBRACE]
  {
    PairText(sig);
    var s, i, g: CodePoint := 's' as int, 'i' as int, 'g' as int;
    assert Txt("sig") == [s, i, g];
    assert Txt(",\"sig\":\"") == [COMMA, QUOTE, s, i, g, QUOTE, COLON, QUOTE];
    assert Txt("\"}") == [QUOTE, RBRACE];
    Layout(s, i, g, sig);
  }

  lemma Layout(s: CodePoint, i: CodePoint, g: CodePoint, sig: Text)
    ensures [COMMA, QUOTE, s, i, g, QUOTE, COLON, QUOTE] + sig + [QUOTE, RBRACE]
         == [COMMA] + ([QUOTE] + [s, i, g] + [QUOTE] + ([COLON] + ([QUOTE] + sig + [QUOTE]))) + [RBRACE]
  {
  }

  lemma Replant(body: Text, pair: Text, last: Text)
    ensures [LBRACE] + (body + pair) + last == [LBRACE] + body + (pair + last)
    ensures var data := [LBRACE] + body + [RBRACE]; data[..|data| - 1] == [LBRACE] + body
  {
  }

  /** The splice writes exactly what dumping the dict with one more entry would. */
  lemma SpliceIsField(m: Message, sig: Text)
    requires Sendable(m) && IsHex(sig)
    ensures Spliced(ToBytes(m), sig) == Encode(Obj(Fields(m, Member(Txt("sig"), Str(sig), NoMembers))))
  {
    var ms, last := Fields(m, NoMembers), Member(Txt("sig"), Str(sig), NoMembers);
    var body, pair := EncodeMembers(ms), [COMMA] + EncodePair(Txt("sig"), Str(sig));
    OneMore(ms, Txt("sig"), Str(sig));
    AppendExtra(m, last);
    SpliceText(sig);
    Replant(body, pair, [RBRACE]);
    SplicedShape(ToBytes(m), [LBRACE] + body, sig);
  }

  lemma SplicedShape(data: Bytes, front: Text, sig: Text)
    requires data != [] && IsHex(sig) && data[..|data| - 1] == front
    ensures Spliced(data, sig) == front + (Txt(",\"sig\":\"") + sig + Txt("\"}"))
  {
  }

  /** A spliced signature does not disturb what the receiver reads. */
  lemma SplicedRoundTrip(m: Message, sig: Text)
    requires Sendable(m) && IsHex(sig)
    ensures FromBytes(Spliced(ToBytes(m), sig)) == Decoded(Received(m))
  {
    var extra := Member(Txt("sig"), Str(sig), NoMembers);
    SpliceIsField(m, sig);
    FieldsOk(m, extra);
    EncodeAscii(Obj(Fields(m, extra)));
    Utf8Ascii(Spliced(ToBytes(m), sig));
    LoadsDumps(Obj(Fields(m, extra)));
    ReadFields(m, extra);
  }

  /** Exactly the unsigned messages with clean fields, and a reply id that is absent or true, arrive unchanged. */
  lemma UnchangedIff(m: Message)
    ensures Received(m) == m <==>
            && Clean(m.payload) && Clean(m.id) && Clean(m.ts) && m.signature.None?
            && (m.replyTo == NULL || (Truthy(m.replyTo) && Clean(m.replyTo)))
  {
    CanonIdentity(m.payload);
    CanonIdentity(m.id);
    CanonIdentity(m.ts);
    CanonIdentity(m.replyTo);
  }

  /** No byte string at all decodes to a message that verifies, so a handshake can never accept its answer. */
  lemma ReceivedNeverVerifies(b: Bytes, expected: Text)
    requires FromBytes(b).Decoded?
    ensures !Verifies(FromBytes(b).message, expected)
  {
    var v := Loads(DecodeUtf8(b).value);
    assert FromBytes(b) == FromValue(v.value);
  }
}
