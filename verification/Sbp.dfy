/**
  The SBP codec of src/common/sbp.c: little-endian fields, exact-length frames,
  and the five message types. The functions define the wire format on byte
  sequences. Module SbpBuffers is the code on byte buffers.
 */
module Sbp {
  import opened Basics

  type Byte = b: int | 0 <= b < 256

  const VERSION: Byte := 1
  const HEADER_SIZE: nat := 8
  const MAX_PAYLOAD: nat := 65535

  datatype Status = Success | InvalidArg | BufferTooSmall | InvalidType | InvalidLength | UnsupportedVersion

  datatype Result<+T> = Ok(value: T) | Err(status: Status)

  // ---- Little-endian fields -------------------------------------------------

  function Le(v: nat, n: nat): (bytes: seq<Byte>)
    ensures |bytes| == n
  {
    if n == 0 then [] else [v % 256] + Le(v / 256, n - 1)
  }

  function FromLe(bytes: seq<Byte>): nat {
    if bytes == [] then 0 else bytes[0] + 256 * FromLe(bytes[1..])
  }

  function Pow256(n: nat): (p: nat)
    ensures p > 0
  {
    if n == 0 then 1 else 256 * Pow256(n - 1)
  }

  lemma {:induction false} FromLeBound(bytes: seq<Byte>)
    ensures FromLe(bytes) < Pow256(|bytes|)
  {
    if bytes != [] {
      FromLeBound(bytes[1..]);
    }
  }

  lemma {:induction false} FromLeOfLe(v: nat, n: nat)
    requires v < Pow256(n)
    ensures FromLe(Le(v, n)) == v
  {
    if n > 0 {
      FromLeOfLe(v / 256, n - 1);
      assert Le(v, n)[1..] == Le(v / 256, n - 1);
    }
  }

  lemma {:induction false} LeOfFromLe(bytes: seq<Byte>)
    ensures Le(FromLe(bytes), |bytes|) == bytes
  {
    if bytes != [] {
      LeOfFromLe(bytes[1..]);
      var v := FromLe(bytes);
      assert v % 256 == bytes[0] && v / 256 == FromLe(bytes[1..]);
      assert bytes == [bytes[0]] + bytes[1..];
    }
  }

  /** The C casts between int64_t / int32_t and their unsigned counterparts. */
  function Unsigned64(x: I64): U64 { if x < 0 then x + 0x1_0000_0000_0000_0000 else x }
  function Signed64(u: U64): I64 { if u >= 0x8000_0000_0000_0000 then u - 0x1_0000_0000_0000_0000 else u }
  function Unsigned32(x: I32): U32 { if x < 0 then x + 0x1_0000_0000 else x }
  function Signed32(u: U32): I32 { if u >= 0x8000_0000 then u - 0x1_0000_0000 else u }

  lemma Widths()
    ensures Pow256(2) == 0x1_0000 && Pow256(4) == 0x1_0000_0000 && Pow256(8) == 0x1_0000_0000_0000_0000
  {
    assert Pow256(1) == 256;
    assert Pow256(3) == 0x100_0000;
    assert Pow256(5) == 0x100_0000_0000 && Pow256(6) == 0x1_0000_0000_0000 && Pow256(7) == 0x100_0000_0000_0000;
  }

  function Get16(p: seq<Byte>): (v: U16)
    requires |p| == 2
  { Widths(); FromLeBound(p); FromLe(p) }

  function Get32(p: seq<Byte>): (v: U32)
    requires |p| == 4
  { Widths(); FromLeBound(p); FromLe(p) }

  function Get64(p: seq<Byte>): (v: U64)
    requires |p| == 8
  { Widths(); FromLeBound(p); FromLe(p) }

  // ---- Messages -----------------------------------------------------------------

  /** The wire numbers of message types are 1 to 5. */
  type Unknown = t: int | t < 1 || t > 5 witness 0

  datatype Body =
    | Hello
    | Ack
    | SetTime(sec: I64, nsec: I32)
    | SetSeed(seed: U64)
    | Register(pid: U32, slot: U32)
    | Other(tag: Unknown)

  datatype Message = Message(version: Byte, flags: U16, body: Body)

  function TypeOf(body: Body): Byte
    requires !body.Other?
  {
    match body
    case Hello => 1
    case Ack => 2
    case SetTime(_, _) => 3
    case SetSeed(_) => 4
    case Register(_, _) => 5
  }

  function PayloadLen(tag: Byte): nat {
    if tag == 3 then 12 else if tag == 4 || tag == 5 then 8 else 0
  }

  function Payload(body: Body): (bytes: seq<Byte>)
    requires !body.Other?
    ensures |bytes| == PayloadLen(TypeOf(body))
  {
    match body
    case SetTime(sec, nsec) => Le(Unsigned64(sec), 8) + Le(Unsigned32(nsec), 4)
    case SetSeed(seed) => Le(seed, 8)
    case Register(pid, slot) => Le(pid, 4) + Le(slot, 4)
    case _ => []
  }

  function Frame(version: Byte, tag: Byte, flags: U16, payload: seq<Byte>): seq<Byte> {
    [version, tag] + Le(flags, 2) + Le(|payload|, 4) + payload
  }

  function Serialize(m: Message): (f: seq<Byte>)
    requires !m.body.Other?
    ensures |f| == HEADER_SIZE + PayloadLen(TypeOf(m.body))
  {
    Frame(m.version, TypeOf(m.body), m.flags, Payload(m.body))
  }

  datatype Header = Header(version: Byte, tag: Byte, flags: U16, payloadLen: nat)

  function DecodeHeader(f: seq<Byte>): (r: Result<Header>)
    ensures r.Ok? ==> |f| == HEADER_SIZE + r.value.payloadLen && r.value.payloadLen <= MAX_PAYLOAD
  {
    if |f| < HEADER_SIZE then Err(InvalidLength)
    else
      var len := Get32(f[4..8]);
      if len > MAX_PAYLOAD || |f| != HEADER_SIZE + len then Err(InvalidLength)
      else Ok(Header(f[0], f[1], Get16(f[2..4]), len))
  }

  function ParseBody(tag: Byte, p: seq<Byte>): (r: Result<Body>)
    ensures r.Ok? ==> !r.value.Other?
  {
    if tag == 1 || tag == 2 then
      if p != [] then Err(InvalidLength) else Ok(if tag == 1 then Hello else Ack)
    else if tag == 3 then
      if |p| != 12 then Err(InvalidLength) else Ok(SetTime(Signed64(Get64(p[..8])), Signed32(Get32(p[8..12]))))
    else if tag == 4 then
      if |p| != 8 then Err(InvalidLength) else Ok(SetSeed(Get64(p[..8])))
    else if tag == 5 then
      if |p| != 8 then Err(InvalidLength) else Ok(Register(Get32(p[..4]), Get32(p[4..8])))
    else Err(InvalidType)
  }

  function Deserialize(f: seq<Byte>): (r: Result<Message>)
  {
    match DecodeHeader(f)
    case Err(status) => Err(status)
    case Ok(h) =>
      if h.version != VERSION then Err(UnsupportedVersion)
      else
        match ParseBody(h.tag, f[HEADER_SIZE..])
        case Err(status) => Err(status)
        case Ok(body) => Ok(Message(h.version, h.flags, body))
  }

  // ---- The wire format ---------------------------------------------------------------

  lemma Get16Le(v: U16)
    ensures Get16(Le(v, 2)) == v
  { Widths(); FromLeOfLe(v, 2); }

  lemma Get32Le(v: U32)
    ensures Get32(Le(v, 4)) == v
  { Widths(); FromLeOfLe(v, 4); }

  lemma Get64Le(v: U64)
    ensures Get64(Le(v, 8)) == v
  { Widths(); FromLeOfLe(v, 8); }

  lemma HeaderOfFrame(version: Byte, tag: Byte, flags: U16, payload: seq<Byte>)
    requires |payload| <= MAX_PAYLOAD
    ensures var f := Frame(version, tag, flags, payload);
            && DecodeHeader(f) == Ok(Header(version, tag, flags, |payload|))
            && f[HEADER_SIZE..] == payload
  {
    hide Le, Get16, Get32;
    var f := Frame(version, tag, flags, payload);
    assert f[2..4] == Le(flags, 2);
    assert f[4..8] == Le(|payload|, 4);
    Get16Le(flags);
    Get32Le(|payload|);
  }

  lemma FrameOfHeader(f: seq<Byte>)
    requires DecodeHeader(f).Ok?
    ensures var h := DecodeHeader(f).value;
            f == Frame(h.version, h.tag, h.flags, f[HEADER_SIZE..])
  {
    hide Le;
    var h := DecodeHeader(f).value;
    LeOfFromLe(f[2..4]);
    LeOfFromLe(f[4..8]);
    assert f == [f[0], f[1]] + f[2..4] + f[4..8] + f[8..];
  }

  lemma ParseOfPayload(body: Body)
    requires !body.Other?
    ensures ParseBody(TypeOf(body), Payload(body)) == Ok(body)
  {
    hide Le, Get32, Get64;
    var p := Payload(body);
    match body
    case SetTime(sec, nsec) =>
      assert p[..8] == Le(Unsigned64(sec), 8) && p[8..12] == Le(Unsigned32(nsec), 4);
      Get64Le(Unsigned64(sec));
      Get32Le(Unsigned32(nsec));
    case SetSeed(seed) =>
      assert p[..8] == Le(seed, 8);
      Get64Le(seed);
    case Register(pid, slot) =>
      assert p[..4] == Le(pid, 4) && p[4..8] == Le(slot, 4);
      Get32Le(pid);
      Get32Le(slot);
    case _ =>
  }

  lemma PayloadOfParse(tag: Byte, p: seq<Byte>)
    requires ParseBody(tag, p).Ok?
    ensures var body := ParseBody(tag, p).value;
            TypeOf(body) == tag && Payload(body) == p
  {
    hide Le;
    if tag == 3 {
      LeOfFromLe(p[..8]);
      LeOfFromLe(p[8..12]);
      assert p == p[..8] + p[8..12];
    } else if tag == 4 {
      LeOfFromLe(p[..8]);
      assert p == p[..8];
    } else if tag == 5 {
      LeOfFromLe(p[..4]);
      LeOfFromLe(p[4..8]);
      assert p == p[..4] + p[4..8];
    }
  }

  /** Reading back what was written gives the message, negative times included; a frame of any
      other protocol version is turned away as such. */
  lemma DeserializeSerialize(m: Message)
    requires !m.body.Other?
    ensures Deserialize(Serialize(m)) == if m.version == VERSION then Ok(m) else Err(UnsupportedVersion)
  {
    hide DecodeHeader, ParseBody, Frame, Payload;
    HeaderOfFrame(m.version, TypeOf(m.body), m.flags, Payload(m.body));
    ParseOfPayload(m.body);
  }

  /** Writing what was read gives the frame back, so no two frames mean the same message. */
  lemma SerializeDeserialize(f: seq<Byte>)
    requires Deserialize(f).Ok?
    ensures var m := Deserialize(f).value;
            m.version == VERSION && !m.body.Other? && Serialize(m) == f
  {
    hide DecodeHeader, ParseBody, Frame, Payload;
    FrameOfHeader(f);
    PayloadOfParse(DecodeHeader(f).value.tag, f[HEADER_SIZE..]);
  }

  /** The accepted frames are exactly the images of the version-1 messages. */
  lemma AcceptedExactlyWhenWritten(f: seq<Byte>)
    ensures Deserialize(f).Ok? <==> exists m: Message :: IsFrameOf(f, m)
  {
    hide Deserialize, Serialize;
    if Deserialize(f).Ok? {
      SerializeDeserialize(f);
      assert IsFrameOf(f, Deserialize(f).value);
    }
    if m: Message :| IsFrameOf(f, m) {
      DeserializeSerialize(m);
    }
  }

  predicate IsFrameOf(f: seq<Byte>, m: Message) {
    m.version == VERSION && !m.body.Other? && f == Serialize(m)
  }

  /** An accepted frame fixes its own length: bytes more or bytes fewer are rejected as a wrong length. */
  lemma FramesAreSelfDelimiting(f: seq<Byte>, g: seq<Byte>)
    requires Deserialize(f).Ok? && (f < g || g < f)
    ensures Deserialize(g) == Err(InvalidLength)
  {
    if |g| >= HEADER_SIZE {
      assert f[4..8] == g[4..8] by {
        if f < g {
          assert f == g[..|f|];
        } else {
          assert g == f[..|g|];
        }
      }
    }
  }

  function Flatten(frames: seq<seq<Byte>>): seq<Byte> {
    if frames == [] then [] else frames[0] + Flatten(frames[1..])
  }

  /** Two or more frames arriving in one read are always rejected. */
  lemma ConcatenationRejected(frames: seq<seq<Byte>>)
    requires |frames| >= 2 && (forall i | 0 <= i < |frames| :: Deserialize(frames[i]).Ok?)
    ensures Deserialize(Flatten(frames)) == Err(InvalidLength)
  {
    hide Deserialize;
    var f, rest := frames[0], frames[1..];
    assert Flatten(rest) == rest[0] + Flatten(rest[1..]);
    AcceptedIsNonempty(rest[0]);
    assert f < f + Flatten(rest);
    FramesAreSelfDelimiting(f, Flatten(frames));
  }

  lemma AcceptedIsNonempty(f: seq<Byte>)
    requires Deserialize(f).Ok?
    ensures f != []
  {}

  // ---- The bytes on the wire ----------------------------------------------------------

  /** Bytes from `at` on hold a number, least significant byte first. */
  predicate Holds16(f: seq<Byte>, at: nat, v: int) {
    at + 2 <= |f| && f[at] == v % 0x100 && f[at + 1] == v / 0x100 % 0x100
  }

  predicate Holds32(f: seq<Byte>, at: nat, v: int) {
    && at + 4 <= |f| && f[at] == v % 0x100 && f[at + 1] == v / 0x100 % 0x100
    && f[at + 2] == v / 0x1_0000 % 0x100 && f[at + 3] == v / 0x100_0000 % 0x100
  }

  predicate Holds64(f: seq<Byte>, at: nat, v: int) {
    at + 8 <= |f| && Holds32(f, at, v) && Holds32(f, at + 4, v / 0x1_0000_0000)
  }

  lemma TwoBytes(v: nat)
    ensures Le(v, 2) == [v % 0x100, v / 0x100 % 0x100]
  {
    assert Le(v / 0x100, 1) == [v / 0x100 % 0x100];
  }

  lemma FourBytes(v: nat)
    ensures Le(v, 4) == [v % 0x100, v / 0x100 % 0x100, v / 0x1_0000 % 0x100, v / 0x100_0000 % 0x100]
  {
    TwoBytes(v / 0x1_0000);
    assert Le(v / 0x100, 3) == [v / 0x100 % 0x100] + Le(v / 0x1_0000, 2);
  }

  lemma EightBytes(v: nat)
    ensures Le(v, 8) == Le(v, 4) + Le(v / 0x1_0000_0000, 4)
  {
    FourBytes(v);
    var w := v / 0x1_0000_0000;
    assert Le(v / 0x100_0000, 5) == [v / 0x100_0000 % 0x100] + Le(w, 4);
    assert Le(v / 0x1_0000, 6) == [v / 0x1_0000 % 0x100] + Le(v / 0x100_0000, 5);
    assert Le(v / 0x100, 7) == [v / 0x100 % 0x100] + Le(v / 0x1_0000, 6);
  }

  lemma LeHolds16(f: seq<Byte>, at: nat, v: nat)
    requires at + 2 <= |f| && f[at..at + 2] == Le(v, 2)
    ensures Holds16(f, at, v)
  {
    hide Le;
    TwoBytes(v);
    assert f[at] == f[at..at + 2][0] && f[at + 1] == f[at..at + 2][1];
  }

  lemma LeHolds32(f: seq<Byte>, at: nat, v: nat)
    requires at + 4 <= |f| && f[at..at + 4] == Le(v, 4)
    ensures Holds32(f, at, v)
  {
    hide Le;
    FourBytes(v);
    FourAt(f, at);
  }

  lemma LeHolds64(f: seq<Byte>, at: nat, v: nat)
    requires at + 8 <= |f| && f[at..at + 8] == Le(v, 8)
    ensures Holds64(f, at, v)
  {
    hide Le, Holds32;
    EightBytes(v);
    assert f[at..at + 4] == f[at..at + 8][..4] && f[at + 4..at + 8] == f[at..at + 8][4..];
    LeHolds32(f, at, v);
    LeHolds32(f, at + 4, v / 0x1_0000_0000);
  }

  lemma FourAt(f: seq<Byte>, at: nat)
    requires at + 4 <= |f|
    ensures f[at..at + 4] == [f[at], f[at + 1], f[at + 2], f[at + 3]]
  {}

  /** The number that bytes from `at` on hold. */
  function Number16(f: seq<Byte>, at: nat): int
    requires at + 2 <= |f|
  {
    var b0: int, b1: int := f[at], f[at + 1];
    b0 + 0x100 * b1
  }

  function Number32(f: seq<Byte>, at: nat): int
    requires at + 4 <= |f|
  {
    var b0: int, b1: int, b2: int, b3: int := f[at], f[at + 1], f[at + 2], f[at + 3];
    b0 + 0x100 * b1 + 0x1_0000 * b2 + 0x100_0000 * b3
  }

  lemma GetIsNumber(f: seq<Byte>, at: nat)
    ensures at + 2 <= |f| ==> Get16(f[at..at + 2]) == Number16(f, at)
    ensures at + 4 <= |f| ==> Get32(f[at..at + 4]) == Number32(f, at)
  {
    if at + 2 <= |f| {
      var p := f[at..at + 2];
      assert FromLe(p[1..]) == p[1] by { assert p[1..][1..] == []; }
    }
    if at + 4 <= |f| {
      var p := f[at..at + 4];
      assert FromLe(p[3..]) == p[3] by { assert p[3..][1..] == []; }
      assert FromLe(p[2..]) == p[2] + 256 * FromLe(p[3..]) by { assert p[2..][1..] == p[3..]; }
      assert FromLe(p[1..]) == p[1] + 256 * FromLe(p[2..]) by { assert p[1..][1..] == p[2..]; }
    }
  }

  /** The layout in numbers: version and type, flags at 2, payload length at 4, and the fields of the
      payload from 8 on, negative times as two's complement. */
  lemma Layout(m: Message)
    requires !m.body.Other?
    ensures var f := Serialize(m);
            && |f| >= 8 && f[0] == m.version && Holds16(f, 2, m.flags) && Holds32(f, 4, |f| - 8)
            && match m.body
               case Hello => |f| == 8 && f[1] == 1
               case Ack => |f| == 8 && f[1] == 2
               case SetTime(sec, nsec) =>
                 && |f| == 20 && f[1] == 3
                 && Holds64(f, 8, if sec < 0 then sec + 0x1_0000_0000_0000_0000 else sec)
                 && Holds32(f, 16, if nsec < 0 then nsec + 0x1_0000_0000 else nsec)
               case SetSeed(seed) => |f| == 16 && f[1] == 4 && Holds64(f, 8, seed)
               case Register(pid, slot) => |f| == 16 && f[1] == 5 && Holds32(f, 8, pid) && Holds32(f, 12, slot)
  {
    hide Le, Holds16, Holds32, Holds64;
    var f := Serialize(m);
    assert f[2..4] == Le(m.flags, 2);
    LeHolds16(f, 2, m.flags);
    assert f[4..8] == Le(|f| - 8, 4);
    LeHolds32(f, 4, |f| - 8);
    assert f[8..] == Payload(m.body);
    match m.body
    case SetTime(sec, nsec) =>
      assert f[8..16] == f[8..][..8] && f[16..20] == f[8..][8..];
      LeHolds64(f, 8, Unsigned64(sec));
      LeHolds32(f, 16, Unsigned32(nsec));
    case SetSeed(seed) =>
      assert f[8..16] == f[8..];
      LeHolds64(f, 8, seed);
    case Register(pid, slot) =>
      assert f[8..12] == f[8..][..4] && f[12..16] == f[8..][4..];
      LeHolds32(f, 8, pid);
      LeHolds32(f, 12, slot);
    case _ =>
  }

  /** What becomes of any bytes, in the order of the checks: the length first, then the version, the
      type, and the payload length of that type. */
  lemma StatusOfAnyBytes(f: seq<Byte>)
    ensures var r := Deserialize(f);
            if |f| < 8 || Number32(f, 4) > 65535 || |f| != 8 + Number32(f, 4) then r == Err(InvalidLength)
            else if f[0] != 1 then r == Err(UnsupportedVersion)
            else if f[1] < 1 || f[1] > 5 then r == Err(InvalidType)
            else if |f| != (if f[1] <= 2 then 8 else if f[1] == 3 then 20 else 16) then r == Err(InvalidLength)
            else r.Ok? && r.value.version == 1 && r.value.flags == Number16(f, 2)
  {
    hide Get16, Get32, Get64;
    GetIsNumber(f, 2);
    GetIsNumber(f, 4);
  }
}
