/**
 The part of MQTT 3.1.1 a camera speaks: the packet writer and reader, the CONNECT, PUBLISH and
 PUBACK bodies, and the publishing session that keeps one message in flight.

 Bytes are integers below 256; the bit operations of the length field are written as arithmetic.
 */
module Mqtt {
  import opened Wrappers

  type Byte = b: int | 0 <= b < 256
  type Bytes = seq<Byte>

  // The bit operations of the source on one byte, and on a length of up to 28 bits, are written as
  // arithmetic. These say that they are the same.

  lemma BitsOfAByte(byte: bv8)
    ensures byte & 0x7f == byte % 128 && byte >> 4 == byte / 16
    ensures byte & 0x80 == 0 <==> byte < 128
    ensures byte < 128 ==> byte | 0x80 == byte + 128
  {}

  /** The bits a length byte adds lie above the ones already read, so `|` is `+`. */
  lemma BitsOfALength(length: bv32, bits: bv32)
    requires bits < 128
    ensures length == 0 ==> length | bits == length + bits
    ensures length < 0x80 ==> length | (bits << 7) == length + bits * 128
    ensures length < 0x4000 ==> length | (bits << 14) == length + bits * 16_384
    ensures length < 0x20_0000 ==> length | (bits << 21) == length + bits * 2_097_152
  {}

  // ----- the writer

  /** The remaining-length field of a body of `n` bytes: seven bits a byte, lowest first. */
  function LengthBytes(n: nat): Bytes {
    if n < 128 then [n] else [n % 128 + 128] + LengthBytes(n / 128)
  }

  function Packet(header: Byte, body: Bytes): Bytes {
    [header] + LengthBytes(|body|) + body
  }

  method WritePacket(header: Byte, body: Bytes) returns (out: Bytes)
    ensures out == Packet(header, body)
  {
    out := [header];
    var length := |body|;
    while true
      invariant length >= 0
      invariant [header] + LengthBytes(|body|) == out + LengthBytes(length)
      decreases length
    {
      ghost var before, rest := out, LengthBytes(length);
      var byte: Byte := length % 128;
      length := length / 128;
      out := out + [if length > 0 then byte + 128 else byte];
      if length == 0 {
        assert rest == [byte];
        break;
      }
      assert rest == [byte + 128] + LengthBytes(length);
      assert before + rest == out + LengthBytes(length);
    }
    out := out + body;
  }

  // ----- the reader

  /** A packet the broker sent: its type, and its variable header and payload. */
  datatype Incoming = Incoming(kind: Byte, body: Bytes)

  /** What one read of a stream gives. */
  datatype Outcome =
    | Closed                                      // the stream ended between packets
    | Got(packet: Incoming, rest: Bytes)
    | Truncated                                   // the stream ended inside a packet
    | TooLong                                     // a length field of more than four bytes

  datatype Length = Length(value: nat, rest: Bytes) | Ended | NotEnded

  /** The seven bits of a length byte. */
  function Low(byte: Byte): nat {
    byte % 128
  }

  /** Whether a length byte is followed by another. */
  predicate GoesOn(byte: Byte) {
    byte >= 128
  }

  /** The length field at the start of `s`, of at most `room` bytes. */
  function ReadLength(s: Bytes, room: nat): Length {
    if room == 0 then NotEnded
    else if s == [] then Ended
    else if !GoesOn(s[0]) then Length(Low(s[0]), s[1..])
    else
      match ReadLength(s[1..], room - 1)
      case Length(high, rest) => Length(Low(s[0]) + 128 * high, rest)
      case other => other
  }

  function ReadPacket(s: Bytes): Outcome {
    if s == [] then Closed
    else
      match ReadLength(s[1..], 4)
      case NotEnded => TooLong
      case Ended => Truncated
      case Length(length, rest) =>
        if |rest| < length then Truncated
        else Got(Incoming(s[0] / 16, rest[..length]), rest[length..])
  }

  /** A connection, as the bytes that are still to be read from it. */
  class Stream {
    var unread: Bytes

    constructor (bytes: Bytes)
      ensures unread == bytes
    {
      unread := bytes;
    }

    method ReadByte() returns (byte: Option<Byte>)
      modifies this
      ensures old(unread) == [] ==> byte == None && unread == []
      ensures old(unread) != [] ==> byte == Some(old(unread)[0]) && unread == old(unread)[1..]
    {
      if unread == [] {
        return None;
      }
      byte := Some(unread[0]);
      unread := unread[1..];
    }

    /** Reads one packet off the stream, and nothing past it. */
    method Read() returns (outcome: Outcome)
      modifies this
      ensures outcome == ReadPacket(old(unread))
      ensures outcome.Got? ==> unread == outcome.rest
    {
      var first := ReadByte();
      if first == None {
        return Closed;
      }
      var length: nat := 0;
      ghost var field := unread;
      for shift := 0 to 4
        invariant ReadLength(field, 4) == Above(length, Radix(shift), ReadLength(unread, 4 - shift))
      {
        ghost var tail := unread;
        var byte := ReadByte();
        if byte == None {
          return Truncated;
        }
        ghost var before := length;
        length := Added(length, Radix(shift), Low(byte.value));
        if !GoesOn(byte.value) {
          assert ReadLength(tail, 4 - shift) == Length(Low(byte.value), unread);
          if |unread| < length {
            unread := [];
            return Truncated;
          }
          var body := unread[..length];
          unread := unread[length..];
          return Got(Incoming(first.value / 16, body), unread);
        }
        AboveAgain(before, Low(byte.value), Radix(shift), ReadLength(unread, 3 - shift));
      }
      return TooLong;
    }
  }

  /** 128 to the power of `shift`. */
  function Radix(shift: nat): nat {
    if shift == 0 then 1 else 128 * Radix(shift - 1)
  }

  function Added(low: nat, radix: nat, high: nat): nat {
    low + radix * high
  }

  /** A length whose low digits are already read. */
  function Above(low: nat, radix: nat, high: Length): Length {
    match high
    case Length(value, rest) => Length(Added(low, radix, value), rest)
    case other => other
  }

  lemma AboveAgain(low: nat, digit: nat, radix: nat, high: Length)
    ensures Above(low, radix, Above(digit, 128, high)) == Above(Added(low, radix, digit), 128 * radix, high)
  {
    if high.Length? {
      assert radix * (digit + 128 * high.value) == radix * digit + 128 * radix * high.value;
    }
  }

  // ----- the writer and the reader are inverse

  /** The smallest body that needs a fifth length byte: 256 MiB. */
  const TOO_LONG := 268_435_456

  /** A written length reads back exactly when it fits the reader's room, whatever follows it. */
  lemma {:induction false} LengthReadsBack(n: nat, rest: Bytes, room: nat)
    requires room > 0 || n > 0
    ensures ReadLength(LengthBytes(n) + rest, room) == if n < Radix(room) then Length(n, rest) else NotEnded
    decreases room
  {
    var s := LengthBytes(n) + rest;
    if room > 0 {
      RadixPositive(room - 1);
      if n < 128 {
        assert s[1..] == rest;
      } else {
        assert s[1..] == LengthBytes(n / 128) + rest;
        LengthReadsBack(n / 128, rest, room - 1);
        assert n == n % 128 + 128 * (n / 128);
      }
    }
  }

  lemma RadixPositive(k: nat)
    ensures Radix(k) >= 1
  {}

  lemma FourBytes()
    ensures Radix(4) == TOO_LONG
  {
    assert Radix(1) == 128 && Radix(2) == 16_384 && Radix(3) == 2_097_152;
  }

  /** A packet reads back whole, with what follows it untouched, exactly up to 256 MiB less one. */
  lemma PacketReadsBack(header: Byte, body: Bytes, rest: Bytes)
    ensures ReadPacket(Packet(header, body) + rest)
      == if |body| < TOO_LONG then Got(Incoming(header / 16, body), rest) else TooLong
  {
    FourBytes();
    LengthReadsBack(|body|, body + rest, 4);
    assert (Packet(header, body) + rest)[1..] == LengthBytes(|body|) + (body + rest);
  }

  /** A field cut anywhere short of its end reads as ended early. */
  lemma {:induction false} LengthCut(n: nat, k: nat, room: nat)
    requires k < |LengthBytes(n)| && room > 0 && n < Radix(room)
    ensures ReadLength(LengthBytes(n)[..k], room) == Ended
    decreases room
  {
    if k > 0 {
      assert Radix(1) == 128;
      assert LengthBytes(n)[..k][1..] == LengthBytes(n / 128)[..k - 1];
      LengthCut(n / 128, k - 1, room - 1);
    }
  }

  /** A packet cut anywhere but at its two ends is refused as truncated, never read as another. */
  lemma PacketCut(header: Byte, body: Bytes, k: nat)
    requires |body| < TOO_LONG && 0 < k < |Packet(header, body)|
    ensures ReadPacket(Packet(header, body)[..k]) == Truncated
  {
    FourBytes();
    hide LengthBytes, ReadLength, Radix;
    var field := LengthBytes(|body|);
    var cut := Packet(header, body)[..k];
    if k - 1 < |field| {
      assert cut[1..] == field[..k - 1];
      LengthCut(|body|, k - 1, 4);
    } else {
      var part := body[..k - 1 - |field|];
      CutBehind([header], field, body, k);
      LengthReadsBack(|body|, part, 4);
    }
  }

  lemma CutBehind(header: Bytes, field: Bytes, body: Bytes, k: nat)
    requires |header| == 1 && 1 + |field| <= k <= 1 + |field| + |body|
    ensures (header + field + body)[..k][1..] == field + body[..k - 1 - |field|]
  {}

  /**
   Whatever the bytes, a packet is refused as too long exactly when four length bytes all ask for
   another.
   */
  lemma TooLongExactly(s: Bytes)
    ensures ReadPacket(s) == TooLong <==> |s| >= 5 && forall i | 1 <= i <= 4 :: s[i] >= 128
  {
    if s != [] {
      NotEndedExactly(s[1..], 4);
    }
  }

  lemma {:induction false} NotEndedExactly(s: Bytes, room: nat)
    ensures ReadLength(s, room) == NotEnded <==> |s| >= room && forall i | 0 <= i < room :: s[i] >= 128
  {
    if room > 0 && s != [] {
      NotEndedExactly(s[1..], room - 1);
    }
  }

  /**
   What the writer writes is the shortest field the reader takes for a length, and the only one of
   its size.
   */
  lemma {:induction false} LengthIsMinimal(s: Bytes, room: nat)
    requires ReadLength(s, room).Length?
    ensures var read := ReadLength(s, room);
      var used := |s| - |read.rest|;
      && 1 <= used <= room && s[used..] == read.rest
      && |LengthBytes(read.value)| <= used
      && (|LengthBytes(read.value)| == used <==> s[..used] == LengthBytes(read.value))
  {
    var read := ReadLength(s, room);
    var used := |s| - |read.rest|;
    if !GoesOn(s[0]) {
      assert s[..1] == LengthBytes(read.value);
    } else {
      LengthIsMinimal(s[1..], room - 1);
      var high := ReadLength(s[1..], room - 1).value;
      assert s[used..] == s[1..][used - 1..];
      assert s[..used] == [s[0]] + s[1..][..used - 1];
      if high > 0 {
        assert read.value % 128 == Low(s[0]) && read.value / 128 == high;
        assert LengthBytes(read.value) == [s[0]] + LengthBytes(high);
        assert s[..used] == LengthBytes(read.value) ==> s[1..][..used - 1] == LengthBytes(high) by {
          if s[..used] == LengthBytes(read.value) {
            assert s[..used][1..] == LengthBytes(read.value)[1..];
          }
        }
      }
    }
  }

  // ----- a whole stream of packets

  /** Bytes of several packets, one after the other. */
  function Written(packets: seq<(Byte, Bytes)>): Bytes {
    if packets == [] then [] else Packet(packets[0].0, packets[0].1) + Written(packets[1..])
  }

  function Sent(packets: seq<(Byte, Bytes)>): seq<Incoming> {
    if packets == [] then [] else [Incoming(packets[0].0 / 16, packets[0].1)] + Sent(packets[1..])
  }

  lemma ReadConsumes(s: Bytes)
    requires ReadPacket(s).Got?
    ensures |ReadPacket(s).rest| < |s|
  {
    LengthIsMinimal(s[1..], 4);
  }

  /** The packets a stream gives, and how it ends. */
  function ReadAll(s: Bytes): (seq<Incoming>, Outcome)
    decreases |s|
  {
    var outcome := ReadPacket(s);
    if outcome.Got? then
      ReadConsumes(s);
      var (packets, end) := ReadAll(outcome.rest);
      ([outcome.packet] + packets, end)
    else ([], outcome)
  }

  /** Any run of packets below the limit reads back as the packets sent, with the stream closed after them. */
  lemma {:induction false} StreamReadsBack(packets: seq<(Byte, Bytes)>)
    requires forall p :: p in packets ==> |p.1| < TOO_LONG
    ensures ReadAll(Written(packets)) == (Sent(packets), Closed)
  {
    if packets != [] {
      PacketReadsBack(packets[0].0, packets[0].1, Written(packets[1..]));
      StreamReadsBack(packets[1..]);
    }
  }

  // ----- the bodies

  const U16 := 65_536

  /** A number as two bytes, cut to its low sixteen bits. */
  function U16Bytes(n: nat): (bytes: Bytes)
    ensures |bytes| == 2
  {
    [n / 256 % 256, n % 256]
  }

  function U16Of(high: Byte, low: Byte): nat {
    high * 256 + low
  }

  lemma U16ReadsBack(n: nat)
    ensures U16Of(U16Bytes(n)[0], U16Bytes(n)[1]) == n % U16
  {
    assert n == n / 256 * 256 + n % 256;
    assert n / 256 == n / U16 * 256 + n / 256 % 256;
  }

  function String(value: Bytes): Bytes {
    U16Bytes(|value|) + value
  }

  /** The string at the start of `s` and what follows it. */
  function ReadString(s: Bytes): Option<(Bytes, Bytes)> {
    if |s| < 2 then None
    else
      var end := 2 + U16Of(s[0], s[1]);
      if |s| < end then None else Some((s[2..end], s[end..]))
  }

  /** A string reads back exactly when it is shorter than 64 KiB: its length is cut to sixteen bits. */
  lemma StringReadsBack(value: Bytes, rest: Bytes)
    ensures ReadString(String(value) + rest) == Some((value, rest)) <==> |value| < U16
    ensures var read := ReadString(String(value) + rest);
      read.Some? && |read.value.0| == |value| % U16
  {
    hide U16Bytes, U16Of;
    U16ReadsBack(|value|);
    var s := String(value) + rest;
    var cut := |value| % U16;
    assert U16Of(s[0], s[1]) == cut;
    if |value| < U16 {
      assert s[2..2 + cut] == value && s[2 + cut..] == rest;
    }
  }

  const MQTT: Bytes := [0x4d, 0x51, 0x54, 0x54]
  const LEVEL: Bytes := [4, 0xc2]

  function ConnectBody(client: Bytes, user: Bytes, password: Bytes, keepAlive: nat): Bytes {
    String(MQTT) + (LEVEL + U16Bytes(keepAlive) + (String(client) + (String(user) + String(password))))
  }

  /** CONNECT with a clean session, a user name and a password. */
  function Connect(client: Bytes, user: Bytes, password: Bytes, keepAlive: nat): Bytes {
    Packet(0x10, ConnectBody(client, user, password, keepAlive))
  }

  datatype Login = Login(client: Bytes, user: Bytes, password: Bytes, keepAlive: nat)

  /** A broker's reading of a CONNECT body that carries a user name and a password. */
  function ReadConnect(body: Bytes): Option<Login> {
    var name := ReadString(body);
    if name.None? || name.value.0 != MQTT then None
    else
      var s := name.value.1;
      if |s| < 4 || s[..2] != LEVEL then None
      else
        var client := ReadString(s[4..]);
        if client.None? then None
        else
          var user := ReadString(client.value.1);
          if user.None? then None
          else
            var password := ReadString(user.value.1);
            if password.None? || password.value.1 != [] then None
            else Some(Login(client.value.0, user.value.0, password.value.0, U16Of(s[2], s[3])))
  }

  /** A CONNECT reads back as its login exactly when each of its strings is shorter than 64 KiB. */
  lemma ConnectReadsBack(client: Bytes, user: Bytes, password: Bytes, keepAlive: nat)
    requires keepAlive < U16
    ensures ReadConnect(ConnectBody(client, user, password, keepAlive))
        == Some(Login(client, user, password, keepAlive))
      <==> |client| < U16 && |user| < U16 && |password| < U16
  {
    hide U16Bytes, U16Of, String, ReadString;
    var body := ConnectBody(client, user, password, keepAlive);
    var strings := String(client) + (String(user) + String(password));
    var tail := LEVEL + U16Bytes(keepAlive) + strings;
    StringReadsBack(MQTT, tail);
    U16ReadsBack(keepAlive);
    assert tail[..2] == LEVEL && tail[4..] == strings && tail[2..4] == U16Bytes(keepAlive);
    StringReadsBack(client, String(user) + String(password));
    if |client| < U16 {
      StringReadsBack(user, String(password));
      if |user| < U16 {
        StringReadsBack(password, []);
        assert String(password) + [] == String(password);
      }
    }
  }

  function PublishBody(topic: Bytes, id: nat, payload: Bytes): Bytes {
    String(topic) + (U16Bytes(id) + payload)
  }

  /** PUBLISH at QoS 1, not retained, first delivery. */
  function Publish(topic: Bytes, id: nat, payload: Bytes): Bytes {
    Packet(0x32, PublishBody(topic, id, payload))
  }

  datatype Message = Message(topic: Bytes, id: nat, payload: Bytes)

  /** A broker's reading of a PUBLISH body at QoS 1. */
  function ReadPublish(body: Bytes): Option<Message> {
    var topic := ReadString(body);
    if topic.None? || |topic.value.1| < 2 then None
    else
      var s := topic.value.1;
      Some(Message(topic.value.0, U16Of(s[0], s[1]), s[2..]))
  }

  /** A PUBLISH reads back as its message exactly when its topic is shorter than 64 KiB. */
  lemma PublishReadsBack(topic: Bytes, id: nat, payload: Bytes)
    requires id < U16
    ensures ReadPublish(PublishBody(topic, id, payload)) == Some(Message(topic, id, payload)) <==> |topic| < U16
  {
    hide U16Bytes, U16Of;
    var tail := U16Bytes(id) + payload;
    StringReadsBack(topic, tail);
    U16ReadsBack(id);
    assert tail[2..] == payload;
  }

  // ----- the packets, byte by byte

  /**
   A CONNECT body starts with the protocol's name and level, the flags of its login, and the keep-
   alive in seconds.
   */
  lemma ConnectOnTheWire(client: Bytes, user: Bytes, password: Bytes, keepAlive: nat)
    requires keepAlive < 65_536
    ensures ConnectBody(client, user, password, keepAlive)[..10]
      == [0, 4, 'M' as int, 'Q' as int, 'T' as int, 'T' as int, 4, 0xc2, keepAlive / 256, keepAlive % 256]
    ensures Connect(client, user, password, keepAlive)[0] == 0x10
  {
    assert U16Bytes(4) == [0, 4];
    assert keepAlive / 256 % 256 == keepAlive / 256;
    hide LengthBytes;
  }

  /** A PUBLISH at QoS 1 carries its topic behind the topic's length, then the packet id, then the payload. */
  lemma PublishOnTheWire(topic: Bytes, id: nat, payload: Bytes)
    requires |topic| < 65_536 && id < 65_536
    ensures Publish(topic, id, payload)[0] == 0x32
    ensures PublishBody(topic, id, payload)
      == [|topic| / 256, |topic| % 256] + topic + [id / 256, id % 256] + payload
  {
    assert |topic| / 256 % 256 == |topic| / 256 && id / 256 % 256 == id / 256;
    hide LengthBytes;
  }

  // ----- the packets, as a broker reads them off the stream

  const CONNECT: Byte := 1
  const PUBLISH: Byte := 3

  /** The login a stream starts with, and what follows it. */
  function ReadLogin(s: Bytes): Option<(Login, Bytes)> {
    match ReadPacket(s)
    case Got(packet, rest) =>
      if packet.kind != CONNECT then None
      else (match ReadConnect(packet.body) case Some(login) => Some((login, rest)) case None => None)
    case _ => None
  }

  /** The message a stream starts with, and what follows it. */
  function ReadMessage(s: Bytes): Option<(Message, Bytes)> {
    match ReadPacket(s)
    case Got(packet, rest) =>
      if packet.kind != PUBLISH then None
      else (match ReadPublish(packet.body) case Some(message) => Some((message, rest)) case None => None)
    case _ => None
  }

  /**
   A CONNECT arrives whole, with what follows it untouched, exactly when each of its strings is
   shorter than 64 KiB.
   */
  lemma ConnectArrives(client: Bytes, user: Bytes, password: Bytes, keepAlive: nat, rest: Bytes)
    requires keepAlive < U16
    ensures ReadLogin(Connect(client, user, password, keepAlive) + rest)
        == Some((Login(client, user, password, keepAlive), rest))
      <==> |client| < U16 && |user| < U16 && |password| < U16
  {
    var body := ConnectBody(client, user, password, keepAlive);
    PacketReadsBack(0x10, body, rest);
    ConnectReadsBack(client, user, password, keepAlive);
    assert |body| == 16 + |client| + |user| + |password|;
    hide ConnectBody, ReadConnect, ReadPacket, Packet;
  }

  /**
   A PUBLISH arrives whole exactly when its topic is shorter than 64 KiB and all of its body than
   256 MiB.
   */
  lemma PublishArrives(topic: Bytes, id: nat, payload: Bytes, rest: Bytes)
    requires id < U16
    ensures ReadMessage(Publish(topic, id, payload) + rest) == Some((Message(topic, id, payload), rest))
      <==> |topic| < U16 && |topic| + |payload| + 4 < TOO_LONG
  {
    var body := PublishBody(topic, id, payload);
    PacketReadsBack(0x32, body, rest);
    PublishReadsBack(topic, id, payload);
    assert |body| == 4 + |topic| + |payload|;
    hide PublishBody, ReadPublish, ReadPacket, Packet;
  }

  // ----- the publishing session

  const PUBACK: Byte := 4

  /** The packet id a PUBACK acknowledges. */
  function Acknowledged(puback: Bytes): Option<nat> {
    if |puback| < 2 then None else Some(U16Of(puback[0], puback[1]))
  }

  /** The packet id of a frame: 1 to 65535, used again past that. */
  function PacketId(frame: nat): nat
    requires frame >= 1
  {
    (frame - 1) % 65_535 + 1
  }

  lemma PacketIdsTellNeighboursApart(frame: nat)
    requires frame >= 1
    ensures 1 <= PacketId(frame) < U16 && PacketId(frame) != PacketId(frame + 1)
  {}

  /** What each PUBACK among the broker's packets acknowledges, in order. */
  function Acknowledgements(answers: seq<Incoming>): seq<Option<nat>> {
    if answers == [] then []
    else (if answers[0].kind == PUBACK then [Acknowledged(answers[0].body)] else []) + Acknowledgements(answers[1..])
  }

  /**
   A PUBACK whose body starts with a packet id acknowledges it, and one of less than two bytes
   acknowledges none.
   */
  lemma AcknowledgesItsId(id: nat, body: Bytes, more: Bytes)
    requires id < 65_536
    ensures Acknowledged(U16Bytes(id) + more) == Some(id)
    ensures Acknowledged(body) == None <==> |body| < 2
  {
    U16ReadsBack(id);
    hide U16Bytes, U16Of;
  }

  /** Packet ids are the frames' own numbers, up to 65535, and start again behind it. */
  lemma PacketIdsCycle(frame: nat)
    requires frame >= 1
    ensures frame <= 65_535 ==> PacketId(frame) == frame
    ensures PacketId(frame + 65_535) == PacketId(frame)
  {}

  /** The bodies of the PUBACKs among the broker's packets. */
  function Pubacks(answers: seq<Incoming>): seq<Bytes> {
    if answers == [] then [] else (if answers[0].kind == 4 then [answers[0].body] else []) + Pubacks(answers[1..])
  }

  /**
   Whether the broker's PUBACKs, whatever comes between them, are those of the first `count`
   frames in order.
   */
  predicate AnswersAll(answers: seq<Incoming>, count: nat) {
    |Pubacks(answers)| >= count
    && forall i | 0 <= i < count :: Pubacks(answers)[i] == U16Bytes(i % 65_535 + 1)
  }

  lemma {:induction false} AcknowledgementsAre(answers: seq<Incoming>)
    ensures |Acknowledgements(answers)| == |Pubacks(answers)|
    ensures forall i | 0 <= i < |Pubacks(answers)| :: Acknowledgements(answers)[i] == Acknowledged(Pubacks(answers)[i])
  {
    hide Acknowledged;
    if answers != [] {
      AcknowledgementsAre(answers[1..]);
    }
  }

  /** A broker that answers every frame took every frame. */
  lemma AllTaken(sends: nat -> bool, answers: seq<Incoming>, count: nat)
    requires AnswersAll(answers, count) && forall frame: nat | 1 <= frame <= count :: sends(frame)
    ensures forall i: nat | i < count :: Took(sends, Acknowledgements(answers), i)
  {
    AcknowledgementsAre(answers);
    hide Acknowledged, Acknowledgements, Pubacks, U16Bytes;
    forall i: nat | i < count
      ensures Took(sends, Acknowledgements(answers), i)
    {
      assert PacketId(i + 1) == i % 65_535 + 1;
      AcknowledgesItsId(PacketId(i + 1), [], []);
      assert U16Bytes(PacketId(i + 1)) + [] == U16Bytes(PacketId(i + 1));
    }
  }

  /** Whether the broker took frame `i + 1`: it went out, and the PUBACK in its place is its own. */
  predicate Took(sends: nat -> bool, acks: seq<Option<nat>>, i: nat) {
    sends(i + 1) && i < |acks| && acks[i] == Some(PacketId(i + 1))
  }

  /** Waits for the next PUBACK and compares its packet id. */
  method Await(answers: seq<Incoming>, id: nat) returns (acked: bool, rest: seq<Incoming>)
    ensures acked <==> Acknowledgements(answers) != [] && Acknowledgements(answers)[0] == Some(id)
    ensures Acknowledgements(answers) != [] ==> Acknowledgements(rest) == Acknowledgements(answers)[1..]
  {
    hide Acknowledged;
    rest := answers;
    while rest != []
      invariant Acknowledgements(answers) == Acknowledgements(rest)
      decreases |rest|
    {
      var packet := rest[0];
      rest := rest[1..];
      if packet.kind == PUBACK {
        return Acknowledged(packet.body) == Some(id), rest;
      }
    }
    return false, rest;
  }

  /**
   Publishes `count` messages, one at a time. `sends` says whether a frame's bytes could be
   written; `answers` are the packets the broker delivers before it closes or goes silent.
   */
  method Session(count: nat, sends: nat -> bool, answers: seq<Incoming>) returns (acknowledged: nat, sent: nat)
    ensures acknowledged <= count
    ensures forall i: nat | i < acknowledged :: Took(sends, Acknowledgements(answers), i)
    ensures acknowledged < count ==> !Took(sends, Acknowledgements(answers), acknowledged)
    ensures acknowledged <= sent <= acknowledged + 1
    ensures AnswersAll(answers, count) && (forall frame: nat | 1 <= frame <= count :: sends(frame)) ==>
      acknowledged == count
  {
    if AnswersAll(answers, count) && forall frame: nat | 1 <= frame <= count :: sends(frame) {
      AllTaken(sends, answers, count);
    }
    hide Acknowledgements, PacketId, AnswersAll;
    var unread := answers;
    acknowledged, sent := 0, 0;
    ghost var acks := Acknowledgements(answers);
    for frame := 1 to count + 1
      invariant acknowledged == sent == frame - 1 <= |acks|
      invariant acks[frame - 1..] == Acknowledgements(unread)
      invariant forall i: nat | i < acknowledged :: Took(sends, acks, i)
    {
      if !sends(frame) {
        return;
      }
      sent := sent + 1;
      var acked: bool;
      acked, unread := Await(unread, PacketId(frame));
      if !acked {
        return;
      }
      assert acks[frame..] == acks[frame - 1..][1..];
      acknowledged := acknowledged + 1;
    }
  }
}
