/**
  The functions of src/common/sbp.c on byte buffers, proved to compute the wire
  format of module Sbp. Shifts by whole bytes are divisions and products by
  powers of 256, and OR-ing bytes into disjoint positions is addition. Nullable
  arrays stand for the pointers the C code tests against NULL.
 */
module SbpBuffers {
  import opened Basics
  import opened Sbp

  /** `v >> (8 * i)`. */
  function ShiftBytes(v: nat, i: nat): nat {
    if i == 0 then v else ShiftBytes(v / 256, i - 1)
  }

  lemma {:induction false} LeSnoc(v: nat, i: nat)
    ensures Le(v, i + 1) == Le(v, i) + [ShiftBytes(v, i) % 256]
  {
    if i == 0 {
      assert Le(v / 256, 0) == [];
    } else {
      LeSnoc(v / 256, i - 1);
    }
  }

  lemma {:induction false} FromLeSnoc(bytes: seq<Byte>, b: Byte)
    ensures FromLe(bytes + [b]) == FromLe(bytes) + b * Pow256(|bytes|)
  {
    if bytes == [] {
      assert [b][1..] == [];
    } else {
      FromLeSnoc(bytes[1..], b);
      assert (bytes + [b])[1..] == bytes[1..] + [b];
      var scale := Pow256(|bytes| - 1);
      assert b * (256 * scale) == 256 * (b * scale);
    }
  }

  // ---- Fields -----------------------------------------------------------------

  method WriteLe16(p: array<Byte>, at: nat, v: U16)
    requires at + 2 <= p.Length
    modifies p
    ensures p[..] == old(p[..at]) + Le(v, 2) + old(p[at + 2..])
  {
    p[at] := v % 256;
    p[at + 1] := (v / 256) % 256;
    assert Le(v, 2) == [v % 256, (v / 256) % 256];
  }

  method WriteLe32(p: array<Byte>, at: nat, v: U32)
    requires at + 4 <= p.Length
    modifies p
    ensures p[..] == old(p[..at]) + Le(v, 4) + old(p[at + 4..])
  {
    hide Le;
    p[at] := v % 256;
    p[at + 1] := (v / 0x100) % 256;
    p[at + 2] := (v / 0x1_0000) % 256;
    p[at + 3] := (v / 0x100_0000) % 256;
    FourBytes(v);
  }

  lemma Spliced(a: seq<Byte>, b: seq<Byte>, c: seq<Byte>, x: Byte)
    requires c != []
    ensures (a + b + c)[|a| + |b| := x] == a + (b + [x]) + c[1..]
  {}

  method WriteLe64(p: array<Byte>, at: nat, v: U64)
    requires at + 8 <= p.Length
    modifies p
    ensures p[..] == old(p[..at]) + Le(v, 8) + old(p[at + 8..])
  {
    hide Le, ShiftBytes;
    for i := 0 to 8
      invariant p[..] == old(p[..at]) + Le(v, i) + old(p[at + i..])
    {
      ghost var before := p[..];
      p[at + i] := ShiftBytes(v, i) % 256;
      assert p[..] == before[at + i := p[at + i]];
      Spliced(old(p[..at]), Le(v, i), old(p[at + i..]), p[at + i]);
      LeSnoc(v, i);
      assert old(p[at + i..])[1..] == old(p[at + i + 1..]);
    }
  }

  method ReadLe64(p: array<Byte>, at: nat) returns (v: U64)
    requires at + 8 <= p.Length
    ensures v == Get64(p[at..at + 8])
  {
    var sum: nat := 0;
    for i := 0 to 8
      invariant sum == FromLe(p[at..at + i])
    {
      sum := sum + p[at + i] * Pow256(i);
      FromLeSnoc(p[at..at + i], p[at + i]);
      assert p[at..at + i + 1] == p[at..at + i] + [p[at + i]];
    }
    Widths();
    FromLeBound(p[at..at + 8]);
    v := sum;
  }

  method ReadLe32(p: array<Byte>, at: nat) returns (v: U32)
    requires at + 4 <= p.Length
    ensures v == Get32(p[at..at + 4])
  {
    var bytes := p[at..at + 4];
    assert bytes == [p[at], p[at + 1], p[at + 2], p[at + 3]];
    assert FromLe(bytes[3..]) == p[at + 3] by { assert bytes[3..] == [p[at + 3]]; }
    assert FromLe(bytes[2..]) == p[at + 2] + 256 * FromLe(bytes[3..]) by { assert bytes[2..][1..] == bytes[3..]; }
    assert FromLe(bytes[1..]) == p[at + 1] + 256 * FromLe(bytes[2..]) by { assert bytes[1..][1..] == bytes[2..]; }
    var b0: int, b1: int, b2: int, b3: int := p[at], p[at + 1], p[at + 2], p[at + 3];
    v := b0 + b1 * 0x100 + b2 * 0x1_0000 + b3 * 0x100_0000;
  }

  method ReadLe16(p: array<Byte>, at: nat) returns (v: U16)
    requires at + 2 <= p.Length
    ensures v == Get16(p[at..at + 2])
  {
    var bytes := p[at..at + 2];
    assert bytes == [p[at], p[at + 1]];
    assert FromLe(bytes[1..]) == p[at + 1] by { assert bytes[1..] == [p[at + 1]]; }
    var b0: int, b1: int := p[at], p[at + 1];
    v := b0 + b1 * 0x100;
  }

  // ---- Frames --------------------------------------------------------------------

  method WriteHeader(out: array<Byte>, version: Byte, tag: Byte, flags: U16, payloadLen: U32)
    requires HEADER_SIZE <= out.Length
    modifies out
    ensures out[..8] == [version, tag] + Le(flags, 2) + Le(payloadLen, 4)
    ensures forall i | 8 <= i < out.Length :: out[i] == old(out[i])
  {
    hide Le;
    ghost var was := out[..];
    out[0] := version;
    out[1] := tag;
    WriteLe16(out, 2, flags);
    assert out[..4] == [version, tag] + Le(flags, 2) && out[4..] == was[4..];
    WriteLe32(out, 4, payloadLen);
    assert out[..8] == [version, tag] + Le(flags, 2) + Le(payloadLen, 4) && out[8..] == was[8..];
    forall i | 8 <= i < out.Length
      ensures out[i] == was[i]
    {
      assert out[i] == out[8..][i - 8];
    }
  }

  /** The `memcpy` of the payload behind the header. */
  method CopyPayload(out: array<Byte>, payload: array<Byte>, payloadLen: nat)
    requires payload != out && payloadLen <= payload.Length && HEADER_SIZE + payloadLen <= out.Length
    modifies out
    ensures out[8..8 + payloadLen] == payload[..payloadLen] && out[..8] == old(out[..8])
    ensures forall i | 8 + payloadLen <= i < out.Length :: out[i] == old(out[i])
  {
    forall i | 0 <= i < payloadLen {
      out[HEADER_SIZE + i] := payload[i];
    }
  }

  /** Frames a payload into `out`. A NULL payload leaves the payload bytes of `out` as they were.
      `takesLen` says that `out_len` is not NULL. */
  method EncodeFrame(version: Byte, tag: Byte, flags: U16, payload: array?<Byte>, payloadLen: U32,
                     out: array?<Byte>, cap: nat, takesLen: bool) returns (status: Status, outLen: nat)
    requires out != null ==> cap <= out.Length
    requires payload != null ==> payloadLen <= payload.Length && payload != out
    modifies out
    ensures status == if out == null || !takesLen then InvalidArg
                      else if payloadLen > MAX_PAYLOAD then InvalidLength
                      else if cap < HEADER_SIZE + payloadLen then BufferTooSmall
                      else Success
    ensures status != Success && out != null ==> out[..] == old(out[..])
    ensures status == Success ==>
              && outLen == HEADER_SIZE + payloadLen <= out.Length
              && out[outLen..] == old(out[outLen..])
              && out[..outLen] == Frame(version, tag, flags,
                                        if payload == null then old(out[HEADER_SIZE..outLen]) else payload[..payloadLen])
  {
    hide Le;
    outLen := 0;
    if out == null || !takesLen {
      return InvalidArg, 0;
    }
    if payloadLen > MAX_PAYLOAD {
      return InvalidLength, 0;
    }
    var total := HEADER_SIZE + payloadLen;
    if cap < total {
      return BufferTooSmall, 0;
    }
    WriteHeader(out, version, tag, flags, payloadLen);
    if payloadLen > 0 && payload != null {
      CopyPayload(out, payload, payloadLen);
    }
    assert out[..total] == out[..8] + out[8..total];
    return Success, total;
  }

  /** Checks the frame in `frame[..len]`; the payload starts at HEADER_SIZE. `takesHeader` says that
      `out_header` is not NULL. */
  method DecodeFrame(frame: array?<Byte>, len: nat, takesHeader: bool) returns (r: Result<Header>)
    requires frame != null ==> len <= frame.Length
    ensures r == if frame == null || !takesHeader then Err(InvalidArg) else DecodeHeader(frame[..len])
  {
    if frame == null || !takesHeader {
      return Err(InvalidArg);
    }
    if len < HEADER_SIZE {
      return Err(InvalidLength);
    }
    var flags := ReadLe16(frame, 2);
    var payloadLen := ReadLe32(frame, 4);
    assert frame[2..4] == frame[..len][2..4] && frame[4..8] == frame[..len][4..8];
    if payloadLen > MAX_PAYLOAD {
      return Err(InvalidLength);
    }
    if len != HEADER_SIZE + payloadLen {
      return Err(InvalidLength);
    }
    return Ok(Header(frame[0], frame[1], flags, payloadLen));
  }

  // ---- Messages --------------------------------------------------------------------

  /** `message` is None for a NULL `msg`. */
  method SerializeMessage(message: Option<Message>, out: array?<Byte>, cap: nat, takesLen: bool)
    returns (status: Status, outLen: nat)
    requires out != null ==> cap <= out.Length
    modifies out
    ensures status == if message.None? then InvalidArg
                      else if message.value.body.Other? then InvalidType
                      else if out == null || !takesLen then InvalidArg
                      else if cap < |Serialize(message.value)| then BufferTooSmall
                      else Success
    ensures status != Success && out != null ==> out[..] == old(out[..])
    ensures status == Success ==>
              && outLen == |Serialize(message.value)| <= out.Length
              && out[..outLen] == Serialize(message.value) && out[outLen..] == old(out[outLen..])
  {
    outLen := 0;
    if message.None? {
      return InvalidArg, 0;
    }
    var msg := message.value;
    var payload := new Byte[16](_ => 0);
    match msg.body {
    case Hello =>
    case Ack =>
    case SetTime(sec, nsec) =>
      WriteLe64(payload, 0, Unsigned64(sec));
      assert payload[..8] == Le(Unsigned64(sec), 8);
      WriteLe32(payload, 8, Unsigned32(nsec));
      assert payload[..12] == Payload(msg.body);
    case SetSeed(seed) =>
      WriteLe64(payload, 0, seed);
      assert payload[..8] == Payload(msg.body);
    case Register(pid, slot) =>
      WriteLe32(payload, 0, pid);
      assert payload[..4] == Le(pid, 4);
      WriteLe32(payload, 4, slot);
      assert payload[..8] == Payload(msg.body);
    case Other(_) =>
      return InvalidType, 0;
    }
    var payloadLen := PayloadLen(TypeOf(msg.body));
    assert payload[..payloadLen] == Payload(msg.body);
    if payloadLen > 0 {
      status, outLen := EncodeFrame(msg.version, TypeOf(msg.body), msg.flags, payload, payloadLen, out, cap, takesLen);
    } else {
      status, outLen := EncodeFrame(msg.version, TypeOf(msg.body), msg.flags, null, 0, out, cap, takesLen);
    }
  }

  /** `takesMessage` says that `out_msg` is not NULL. */
  method DeserializeMessage(frame: array?<Byte>, len: nat, takesMessage: bool) returns (r: Result<Message>)
    requires frame != null ==> len <= frame.Length
    ensures r == if frame == null || !takesMessage then Err(InvalidArg) else Deserialize(frame[..len])
  {
    if !takesMessage {
      return Err(InvalidArg);
    }
    var decoded := DecodeFrame(frame, len, true);
    if decoded.Err? {
      return Err(decoded.status);
    }
    var h := decoded.value;
    if h.version != VERSION {
      return Err(UnsupportedVersion);
    }
    ghost var p := frame[..len][HEADER_SIZE..];
    var body: Body;
    match h.tag {
      case 1 =>
        if h.payloadLen != 0 { return Err(InvalidLength); }
        body := Hello;
      case 2 =>
        if h.payloadLen != 0 { return Err(InvalidLength); }
        body := Ack;
      case 3 =>
        if h.payloadLen != PayloadLen(3) { return Err(InvalidLength); }
        var sec := ReadLe64(frame, 8);
        var nsec := ReadLe32(frame, 16);
        assert frame[8..16] == p[..8] && frame[16..20] == p[8..12];
        body := SetTime(Signed64(sec), Signed32(nsec));
      case 4 =>
        if h.payloadLen != PayloadLen(4) { return Err(InvalidLength); }
        var seed := ReadLe64(frame, 8);
        assert frame[8..16] == p[..8];
        body := SetSeed(seed);
      case 5 =>
        if h.payloadLen != PayloadLen(5) { return Err(InvalidLength); }
        var pid := ReadLe32(frame, 8);
        var slot := ReadLe32(frame, 12);
        assert frame[8..12] == p[..4] && frame[12..16] == p[4..8];
        body := Register(pid, slot);
      case _ =>
        return Err(InvalidType);
    }
    assert ParseBody(h.tag, p) == Ok(body);
    return Ok(Message(h.version, h.flags, body));
  }
}
