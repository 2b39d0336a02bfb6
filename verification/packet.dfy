/**
 * The wire codec. A packet is two sync bytes, a payload length, the
 * command id, a ctrl byte, the parameter bytes the length declares, and a
 * one-byte additive checksum chosen so that id, ctrl, parameters and
 * checksum sum to zero modulo 256.
 *
 * Arithmetic on `u8` fields is written out: `payload_len - 2` wraps below
 * 2 (as a release build does), `wrapping_add` / `wrapping_sub` are `% 256`,
 * and the ctrl byte's masks and shifts are spelt with `%`, `/` and `*`.
 */
module Packets {
  import opened Wire
  import opened Wrappers
  import opened Messages
  import ProtocolIds

  datatype PacketHeader = PacketHeader(sync0: Byte, sync1: Byte, payloadLen: Byte)
  datatype PacketPayload = PacketPayload(id: Byte, ctrl: Byte, params: seq<Byte>)
  datatype Packet = Packet(header: PacketHeader, payload: PacketPayload, checksum: Byte)

  function Min(a: int, b: int): int {
    if a <= b then a else b
  }

  // ----- bit operations on a byte -----

  /** `x & 0x01` */
  function Bit0(x: Byte): Byte { x % 2 }

  /** `x & 0x02` */
  function Mask2(x: Byte): Byte { x % 4 / 2 * 2 }

  /** `x << 1` on `u8`: bit 7 is shifted out. */
  function Shl1(x: Byte): Byte { 2 * x % 256 }

  /** `x >> 1` */
  function Shr1(x: Byte): Byte { x / 2 }

  /**
   * `(rw & 0x01) | ((is_queued << 1) & 0x02)`. The two operands of `|` have
   * no bit in common, so `|` is their sum. Only bits 0 and 1 can be set,
   * and they carry the low bits of `rw` and of the queued byte.
   */
  function Ctrl(rw: Byte, isQueued: Byte): (c: Byte)
    ensures c < 4
    ensures Bit0(c) == Bit0(rw) && Bit0(Shr1(c)) == Bit0(isQueued)
    ensures Mask2(c) == 2 * Bit0(isQueued)
  {
    ShiftedBit(isQueued);
    TwoBits(Bit0(rw), Bit0(isQueued));
    Bit0(rw) + Mask2(Shl1(isQueued))
  }

  /** Shifting left by one moves bit 0 to bit 1. */
  lemma ShiftedBit(x: Byte)
    ensures Mask2(Shl1(x)) == 2 * Bit0(x)
  {
    if x % 2 == 0 {
      assert Shl1(x) % 4 == 0;
    } else {
      assert Shl1(x) % 4 == 2;
    }
  }

  /** The two low bits of `a + 2 * b` read back as `a` and `b`. */
  lemma TwoBits(a: Byte, b: Byte)
    requires a <= 1 && b <= 1
    ensures Bit0(a + 2 * b) == a && Bit0(Shr1(a + 2 * b)) == b && Mask2(a + 2 * b) == 2 * b
  {
    if a == 0 && b == 0 {
    } else if a == 1 && b == 0 {
    } else if a == 0 {
      assert Mask2(2) == 2;
    } else {
      assert Mask2(3) == 2;
    }
  }

  // ----- lengths -----

  /** `payload_len - 2` on `u8`: the parameter count a header declares. */
  function ParamsCount(payloadLen: Byte): Byte {
    WrappingSub(payloadLen, 2)
  }

  /** A length byte written as `n + 2` declares `n` parameters. */
  lemma ParamsCountOf(n: Byte)
    requires n + 2 < 256
    ensures ParamsCount(n + 2) == n
  {
    assert (n + 2 - 2) % 256 == n;
  }

  /** Bytes a frame with this length byte occupies: header 3, id and ctrl 2, parameters, checksum 1. */
  function FrameLength(payloadLen: Byte): nat {
    ParamsCount(payloadLen) + 6
  }

  /** The checksum loop indexes `params[0 .. payload_len - 2]`; it needs that many bytes. */
  predicate ParamsAvailable(p: Packet) {
    ParamsCount(p.header.payloadLen) <= |p.payload.params|
  }

  /** The parameter bytes the header declares: the only ones framed and summed. */
  function DeclaredParams(p: Packet): seq<Byte>
    requires ParamsAvailable(p)
  {
    p.payload.params[..ParamsCount(p.header.payloadLen)]
  }

  // ----- checksum -----

  /**
   * `Packet::checksum`: `0 - (id + ctrl + declared params)` with `u8`
   * wrap-around, i.e. the byte that brings the additive sum to 0 mod 256.
   */
  function Checksum(header: PacketHeader, payload: PacketPayload): (c: Byte)
    requires ParamsCount(header.payloadLen) <= |payload.params|
    ensures (payload.id + payload.ctrl + Sum(payload.params[..ParamsCount(header.payloadLen)]) + c) % 256 == 0
  {
    var declared := payload.params[..ParamsCount(header.payloadLen)];
    var sum := WrappingAdd(WrappingAdd(0, payload.id), payload.ctrl);
    assert sum == (payload.id + payload.ctrl) % 256;
    var sum := WrappingSumFrom(sum, declared);
    var t := payload.id + payload.ctrl + Sum(declared);
    ModAddLeft(payload.id + payload.ctrl, Sum(declared));
    assert sum == t % 256;
    Balance(t, WrappingSub(0, sum));
    WrappingSub(0, sum)
  }

  /** The checksum is the only byte that balances the sum. */
  lemma ChecksumUnique(header: PacketHeader, payload: PacketPayload, c: Byte)
    requires ParamsCount(header.payloadLen) <= |payload.params|
    ensures (payload.id + payload.ctrl + Sum(payload.params[..ParamsCount(header.payloadLen)]) + c) % 256 == 0
            <==> c == Checksum(header, payload)
  {
    var declared := payload.params[..ParamsCount(header.payloadLen)];
    var t := payload.id + payload.ctrl + Sum(declared);
    Balance(t, c);
    Balance(t, Checksum(header, payload));
  }

  predicate ChecksumValid(p: Packet)
    requires ParamsAvailable(p)
  {
    p.checksum == Checksum(p.header, p.payload)
  }

  // ----- Message <-> Packet -----

  /** `from_message` indexes `params[0 .. params_len]` of a `PARAMS_SIZE` array: it panics beyond that. */
  predicate Encodable(m: Message) {
    m.paramsLen <= PARAMS_SIZE
  }

  /**
   * `Packet::from_message`: sync bytes 0xAA, `payload_len = params_len + 2`,
   * the ctrl byte from rw and the queued byte, the whole parameter buffer,
   * and a checksum that balances the declared bytes.
   */
  function FromMessage(m: Message): (p: Packet)
    requires Encodable(m)
    ensures p.header.sync0 == SYNC_BYTE && p.header.sync1 == SYNC_BYTE
    ensures p.header.payloadLen == m.paramsLen + 2
    ensures p.payload.id == m.id && p.payload.ctrl == Ctrl(m.rw, m.isQueued) && p.payload.params == m.params
    ensures ParamsAvailable(p) && ChecksumValid(p)
    ensures DeclaredParams(p) == m.params[..m.paramsLen]
  {
    var header := PacketHeader(SYNC_BYTE, SYNC_BYTE, m.paramsLen + 2);
    ParamsCountOf(m.paramsLen);
    var payload := PacketPayload(m.id, Ctrl(m.rw, m.isQueued), m.params);
    Packet(header, payload, Checksum(header, payload))
  }

  /**
   * A `&mut [u8]` used as a writer: `buf[pos..]` is the slice still
   * available. `Write` copies as many bytes as fit and advances; it never
   * fails, it truncates.
   */
  datatype SliceWriter = SliceWriter(buf: seq<Byte>, pos: nat)

  predicate ValidWriter(w: SliceWriter) {
    w.pos <= |w.buf|
  }

  /** Everything written so far is `data`, and the rest of the buffer is `prior` beyond it. */
  predicate Holds(w: SliceWriter, prior: seq<Byte>, data: seq<Byte>) {
    && ValidWriter(w)
    && |w.buf| == |prior|
    && w.pos == Min(|data|, |prior|)
    && w.buf[..w.pos] == data[..w.pos]
    && w.buf[w.pos..] == prior[w.pos..]
  }

  /** `<&mut [u8] as Write>::write`: copies `min(data.len(), remaining)` bytes and reports that count. */
  function Write(w: SliceWriter, data: seq<Byte>): (r: (SliceWriter, nat))
    requires ValidWriter(w)
    ensures ValidWriter(r.0) && |r.0.buf| == |w.buf|
    ensures r.1 == r.0.pos - w.pos == Min(|data|, |w.buf| - w.pos)
  {
    var amt := Min(|data|, |w.buf| - w.pos);
    (SliceWriter(w.buf[..w.pos] + data[..amt] + w.buf[w.pos + amt..], w.pos + amt), amt)
  }

  /** Writing `data` after `prefix` leaves the buffer holding `prefix + data`, truncated to fit. */
  lemma WriteExtends(w: SliceWriter, prior: seq<Byte>, prefix: seq<Byte>, data: seq<Byte>)
    requires Holds(w, prior, prefix)
    ensures Holds(Write(w, data).0, prior, prefix + data)
  {
    var w' := Write(w, data).0;
    var amt := Min(|data|, |w.buf| - w.pos);
    if w.pos < |prefix| {
      assert w.pos == |prior|;
      assert amt == 0;
    } else {
      assert w.pos == |prefix|;
      assert w'.buf[..w'.pos] == w.buf[..w.pos] + data[..amt];
      assert (prefix + data)[..w'.pos] == prefix + data[..amt];
    }
  }

  /** The bytes of a frame, in wire order. */
  function FrameBytes(p: Packet): (f: seq<Byte>)
    requires ParamsAvailable(p)
    ensures |f| == FrameLength(p.header.payloadLen)
  {
    [p.header.sync0, p.header.sync1, p.header.payloadLen, p.payload.id, p.payload.ctrl]
      + DeclaredParams(p) + [p.checksum]
  }

  /** `to_bytes` slices with `payload_len as usize - 2`, which panics below 2 or past the parameters. */
  predicate Serialisable(p: Packet) {
    2 <= p.header.payloadLen && p.header.payloadLen - 2 <= |p.payload.params|
  }

  /**
   * `Packet::to_bytes`: four successive writes into `buf`. The frame's
   * bytes land at the front of the buffer in wire order; a buffer too small
   * for the frame receives its first `|buf|` bytes and the reported size is
   * that count. Bytes past the frame keep their old values.
   */
  function ToBytes(p: Packet, buf: seq<Byte>): (r: (nat, seq<Byte>))
    requires Serialisable(p)
    ensures ParamsAvailable(p)
    ensures r.0 == Min(|buf|, FrameLength(p.header.payloadLen))
    ensures |r.1| == |buf|
    ensures r.1[..r.0] == FrameBytes(p)[..r.0]
    ensures r.1[r.0..] == buf[r.0..]
  {
    WritesCompose(p, buf);
    var (w, n) := WriteFrame(p, buf);
    (n, w.buf)
  }

  /** The four writes of `to_bytes`, from the start of `buf`: the final writer and the sum of the counts. */
  function WriteFrame(p: Packet, buf: seq<Byte>): (SliceWriter, nat)
    requires Serialisable(p)
  {
    var w := SliceWriter(buf, 0);
    var (w, n1) := Write(w, [p.header.sync0, p.header.sync1, p.header.payloadLen]);
    var (w, n2) := Write(w, [p.payload.id, p.payload.ctrl]);
    var (w, n3) := Write(w, p.payload.params[0..p.header.payloadLen - 2]);
    var (w, n4) := Write(w, [p.checksum]);
    (w, n1 + n2 + n3 + n4)
  }

  /** The writes of `to_bytes` put the frame's bytes in wire order, and their counts add up to the bytes written. */
  lemma WritesCompose(p: Packet, buf: seq<Byte>)
    requires Serialisable(p)
    ensures ParamsAvailable(p)
    ensures Holds(WriteFrame(p, buf).0, buf, FrameBytes(p)) && WriteFrame(p, buf).1 == WriteFrame(p, buf).0.pos
  {
    var a := [p.header.sync0, p.header.sync1, p.header.payloadLen];
    var b := [p.payload.id, p.payload.ctrl];
    var c := p.payload.params[0..p.header.payloadLen - 2];
    var d := [p.checksum];
    assert c == DeclaredParams(p);
    assert a + b + c + d == FrameBytes(p);
    FourWrites(buf, a, b, c, d);
  }

  /** Four successive writes from the start of a buffer leave their concatenation there, truncated. */
  lemma FourWrites(buf: seq<Byte>, a: seq<Byte>, b: seq<Byte>, c: seq<Byte>, d: seq<Byte>)
    ensures
      var (w1, n1) := Write(SliceWriter(buf, 0), a);
      var (w2, n2) := Write(w1, b);
      var (w3, n3) := Write(w2, c);
      var (w4, n4) := Write(w3, d);
      Holds(w4, buf, a + b + c + d) && n1 + n2 + n3 + n4 == w4.pos
  {
    var w := SliceWriter(buf, 0);
    assert Holds(w, buf, []);
    var (w1, n1) := Write(w, a);
    WriteExtends(w, buf, [], a);
    assert [] + a == a;
    var (w2, n2) := Write(w1, b);
    WriteExtends(w1, buf, a, b);
    var (w3, n3) := Write(w2, c);
    WriteExtends(w2, buf, a + b, c);
    WriteExtends(w3, buf, a + b + c, d);
  }

  /**
   * `Packet::to_message`: id copied, rw and the queued flag read back from
   * ctrl bits 0 and 1, the parameter count from the header, and the
   * payload's parameters written over a zeroed buffer (as many as fit).
   */
  function ToMessage(p: Packet): (m: Message)
    ensures m.id == p.payload.id
    ensures m.rw == Bit0(p.payload.ctrl) && m.isQueued == Bit0(Shr1(p.payload.ctrl))
    ensures m.paramsLen == ParamsCount(p.header.payloadLen)
    ensures forall i :: 0 <= i < PARAMS_SIZE ==>
              m.params[i] == if i < |p.payload.params| then p.payload.params[i] else 0
  {
    var w := SliceWriter(ZeroParams(), 0);
    var (w', _) := Write(w, p.payload.params);
    assert Holds(w, ZeroParams(), []);
    WriteExtends(w, ZeroParams(), [], p.payload.params);
    assert [] + p.payload.params == p.payload.params;
    Message(p.payload.id, Bit0(p.payload.ctrl), Bit0(Shr1(p.payload.ctrl)),
            ParamsCount(p.header.payloadLen), w'.buf)
  }

  /** The message a peer recovers from `m`'s frame: flag bytes reduced to one bit, undeclared parameters zero. */
  function Received(m: Message): (r: Message)
    requires Encodable(m)
  {
    Message(m.id, Bit0(m.rw), Bit0(m.isQueued), m.paramsLen,
            m.params[..m.paramsLen] + Zeros(PARAMS_SIZE - m.paramsLen))
  }

  /** `to_message` undoes `from_message`, up to the single bit ctrl keeps of rw and the queued byte. */
  lemma MessageRoundTrip(m: Message)
    requires Encodable(m)
    ensures ToMessage(FromMessage(m)) == m.(rw := Bit0(m.rw), isQueued := Bit0(m.isQueued))
  {
    var p := FromMessage(m);
    var r := ToMessage(p);
    ParamsCountOf(m.paramsLen);
    assert r.paramsLen == m.paramsLen;
    assert r.rw == Bit0(m.rw) && r.isQueued == Bit0(m.isQueued);
    assert forall i :: 0 <= i < PARAMS_SIZE ==> r.params[i] == m.params[i];
    assert r.params == m.params;
    assert r == Message(m.id, Bit0(m.rw), Bit0(m.isQueued), m.paramsLen, m.params);
  }

  /** A message whose flag bytes are 0 or 1 comes back from its packet unchanged. */
  lemma MessageRoundTripExact(m: Message)
    requires Encodable(m) && m.rw <= 1 && m.isQueued <= 1
    ensures ToMessage(FromMessage(m)) == m
  {
    var r := ToMessage(FromMessage(m));
    MessageRoundTrip(m);
    Bit0OfBit(m.rw);
    Bit0OfBit(m.isQueued);
    assert r.id == m.id && r.paramsLen == m.paramsLen && r.params == m.params;
  }

  lemma Bit0OfBit(x: Byte)
    requires x <= 1
    ensures Bit0(x) == x
  {
    if x == 0 {
      assert Bit0(0) == 0;
    } else {
      assert Bit0(1) == 1;
    }
  }

  // ----- parsing -----

  /** A packet whose parameter bytes are exactly the ones its header declares, as a parsed packet is. */
  predicate Shaped(p: Packet) {
    |p.payload.params| == ParamsCount(p.header.payloadLen)
  }

  datatype Parsed = Parsed(rest: seq<Byte>, packet: Packet)

  /**
   * `Packet::from_bytes_impl`: the header's three bytes, then id, ctrl and
   * the declared parameter bytes, then the checksum, each taken with
   * `nom::bytes::complete::take`, so input that runs out is a parse error
   * rather than a request for more. The sync bytes are taken, not checked.
   * On success the frame's bytes followed by the remainder are the input.
   */
  function ParseFrame(input: seq<Byte>): (r: Option<Parsed>)
    ensures r.Some? <==> |input| >= 3 && |input| >= FrameLength(input[2])
    ensures r.Some? ==> Shaped(r.value.packet) && ParamsAvailable(r.value.packet)
    ensures r.Some? ==> FrameBytes(r.value.packet) + r.value.rest == input
  {
    if |input| < 3 then None
    else
      var header := PacketHeader(input[0], input[1], input[2]);
      var n: nat := ParamsCount(header.payloadLen);
      if |input| < 5 + n then None
      else
        var payload := PacketPayload(input[3], input[4], input[5..5 + n]);
        if |input| < 5 + n + 1 then None
        else
          var p := Packet(header, payload, input[5 + n]);
          assert DeclaredParams(p) == input[5..5 + n];
          assert FrameBytes(p) + input[5 + n + 1..] == input;
          Some(Parsed(input[5 + n + 1..], p))
  }

  /** Parsing a frame's bytes gives back the packet and leaves what followed it. */
  lemma ParseFrameBytes(p: Packet, rest: seq<Byte>)
    requires Shaped(p)
    ensures ParamsAvailable(p)
    ensures ParseFrame(FrameBytes(p) + rest) == Some(Parsed(rest, p))
  {
    var input := FrameBytes(p) + rest;
    var r := ParseFrame(input);
    assert input[2] == p.header.payloadLen;
    var n: nat := ParamsCount(p.header.payloadLen);
    assert input[5..5 + n] == p.payload.params;
    assert input[5 + n + 1..] == rest;
  }

  /** The sum the checksum balances, read off a complete frame: id, ctrl, the declared parameters and the checksum. */
  function FrameTotal(input: seq<Byte>): int
    requires |input| >= 3 && |input| >= FrameLength(input[2])
  {
    var n := ParamsCount(input[2]);
    input[3] + input[4] + Sum(input[5..5 + n]) + input[5 + n]
  }

  /** Whether the bytes of a complete frame sum to zero modulo 256. */
  predicate SumsToZero(input: seq<Byte>)
    requires |input| >= 3 && |input| >= FrameLength(input[2])
  {
    FrameTotal(input) % 256 == 0
  }

  /** Whether the input starts with a whole frame whose bytes sum to zero: what `from_bytes` accepts. */
  predicate Decodable(input: seq<Byte>) {
    |input| >= 3 && |input| >= FrameLength(input[2]) && SumsToZero(input)
  }

  /**
   * `Packet::from_bytes`: a packet exactly when the input holds a whole
   * frame whose checksum matches the recomputed one; a short input and a
   * checksum mismatch both give `None`. The sync bytes play no part.
   */
  function FromBytes(input: seq<Byte>): (r: Option<Packet>)
    ensures r.Some? <==> Decodable(input)
    ensures r.Some? ==> Shaped(r.value) && ParamsAvailable(r.value) && ChecksumValid(r.value)
    ensures r.Some? ==> FrameBytes(r.value) == input[..FrameLength(input[2])]
  {
    match ParseFrame(input)
    case None => None
    case Some(parsed) =>
      var p := parsed.packet;
      ParsedChecksum(input, parsed);
      if p.checksum != Checksum(p.header, p.payload) then None else Some(p)
  }

  /** A parsed frame's checksum is valid exactly when the frame's bytes sum to zero. */
  lemma ParsedChecksum(input: seq<Byte>, parsed: Parsed)
    requires ParseFrame(input) == Some(parsed)
    ensures |input| >= 3 && |input| >= FrameLength(input[2])
    ensures ParamsAvailable(parsed.packet)
    ensures FrameBytes(parsed.packet) == input[..FrameLength(input[2])]
    ensures ChecksumValid(parsed.packet) <==> SumsToZero(input)
  {
    var p := parsed.packet;
    var n: nat := ParamsCount(input[2]);
    assert input[..FrameLength(input[2])] == FrameBytes(p);
    assert input[5..5 + n] == p.payload.params == DeclaredParams(p);
    assert input[3] == p.payload.id && input[4] == p.payload.ctrl && input[5 + n] == p.checksum;
    ChecksumUnique(p.header, p.payload, p.checksum);
  }

  // ----- properties of the codec -----

  /**
   * Serialising `m`'s packet into a buffer with room for the frame and
   * parsing the buffer back yields a packet, and the message it carries is
   * `m` with its flag bytes reduced to one bit and its undeclared
   * parameter bytes zeroed. Whatever followed in the buffer is ignored.
   */
  lemma WireRoundTrip(m: Message, buf: seq<Byte>)
    requires Encodable(m)
    requires |buf| >= m.paramsLen + 2 + 4
    ensures var out := ToBytes(FromMessage(m), buf).1;
            && FromBytes(out).Some?
            && ToMessage(FromBytes(out).value) == Received(m)
  {
    var pkt := FromMessage(m);
    ParamsCountOf(m.paramsLen);
    PacketRoundTrip(pkt, buf);
    TrimmedMessage(m);
  }

  /** The packet with its parameters cut down to the declared ones, as parsing produces it. */
  function Trimmed(p: Packet): (r: Packet)
    requires ParamsAvailable(p)
    ensures Shaped(r) && ParamsAvailable(r)
    ensures r.header == p.header && r.checksum == p.checksum
    ensures r.payload.id == p.payload.id && r.payload.ctrl == p.payload.ctrl
    ensures DeclaredParams(r) == DeclaredParams(p)
    ensures ChecksumValid(r) <==> ChecksumValid(p)
  {
    var r := p.(payload := p.payload.(params := DeclaredParams(p)));
    assert DeclaredParams(r) == DeclaredParams(p);
    SameDeclaredSameChecksum(r, p);
    r
  }

  /** The checksum depends only on id, ctrl and the declared parameters. */
  lemma SameDeclaredSameChecksum(a: Packet, b: Packet)
    requires ParamsAvailable(a) && ParamsAvailable(b)
    requires a.header.payloadLen == b.header.payloadLen
    requires a.payload.id == b.payload.id && a.payload.ctrl == b.payload.ctrl
    requires DeclaredParams(a) == DeclaredParams(b)
    ensures Checksum(a.header, a.payload) == Checksum(b.header, b.payload)
  {
    ChecksumUnique(b.header, b.payload, Checksum(a.header, a.payload));
  }

  /**
   * A packet with a valid checksum, written into a buffer with room for
   * its frame, parses back as itself with only its declared parameters.
   */
  lemma PacketRoundTrip(p: Packet, buf: seq<Byte>)
    requires Serialisable(p) && ParamsAvailable(p) && ChecksumValid(p)
    requires |buf| >= FrameLength(p.header.payloadLen)
    ensures FromBytes(ToBytes(p, buf).1) == Some(Trimmed(p))
  {
    var (size, out) := ToBytes(p, buf);
    var t := Trimmed(p);
    assert out == FrameBytes(t) + out[size..];
    ParseFrameBytes(t, out[size..]);
  }

  /** The message of `m`'s trimmed packet is what a peer receives. */
  lemma TrimmedMessage(m: Message)
    requires Encodable(m)
    ensures ToMessage(Trimmed(FromMessage(m))) == Received(m)
  {
    var r := ToMessage(Trimmed(FromMessage(m)));
    ParamsCountOf(m.paramsLen);
    assert r.params == Received(m).params;
  }

  /**
   * Changing any one byte among id, ctrl, the declared parameters and the
   * checksum of a frame that decodes makes it fail to decode.
   */
  lemma SingleByteCorruptionDetected(frame: seq<Byte>, k: nat, v: Byte)
    requires Decodable(frame)
    requires 3 <= k < FrameLength(frame[2])
    requires v != frame[k]
    ensures FromBytes(frame[k := v]).None?
  {
    assert SumsToZero(frame);
    CorruptionUnbalances(frame, k, v);
  }

  /** A frame whose bytes sum to zero stops doing so when one byte past its header changes. */
  lemma CorruptionUnbalances(frame: seq<Byte>, k: nat, v: Byte)
    requires |frame| >= 3 && |frame| >= FrameLength(frame[2]) && SumsToZero(frame)
    requires 3 <= k < FrameLength(frame[2])
    requires v != frame[k]
    ensures frame[k := v][2] == frame[2] && !SumsToZero(frame[k := v])
  {
    TotalAfterUpdate(frame, k, v);
    var t := FrameTotal(frame);
    var q := t / 256;
    assert t == 256 * q;
    ModShift(q, v - frame[k]);
  }

  /** Replacing one byte of a frame past its header moves its total by the change in that byte. */
  lemma {:induction false} TotalAfterUpdate(frame: seq<Byte>, k: nat, v: Byte)
    requires |frame| >= 3 && |frame| >= FrameLength(frame[2])
    requires 3 <= k < FrameLength(frame[2])
    ensures frame[k := v][2] == frame[2]
    ensures FrameTotal(frame[k := v]) == FrameTotal(frame) - frame[k] + v
  {
    var bad := frame[k := v];
    var n: nat := ParamsCount(frame[2]);
    if 5 <= k < 5 + n {
      assert bad[5..5 + n] == frame[5..5 + n][k - 5 := v];
      SumUpdate(frame[5..5 + n], k - 5, v);
    } else {
      assert bad[5..5 + n] == frame[5..5 + n];
    }
  }

  /** The two sync bytes are never examined: any values there decode the same way. */
  lemma SyncBytesIgnored(input: seq<Byte>, a: Byte, b: Byte)
    requires |input| >= 2
    ensures FromBytes(input[0 := a][1 := b]).Some? <==> FromBytes(input).Some?
  {
    var other := input[0 := a][1 := b];
    assert |other| == |input|;
    if |input| >= 3 {
      assert other[2] == input[2];
      if |input| >= FrameLength(input[2]) {
        var n: nat := ParamsCount(input[2]);
        assert other[3] == input[3] && other[4] == input[4] && other[5 + n] == input[5 + n];
        assert other[5..5 + n] == input[5..5 + n];
        assert SumsToZero(other) == SumsToZero(input);
      }
    }
  }

  /** Every proper prefix of a frame fails to decode: short input is a failure, not a wait for more. */
  lemma TruncatedFrameRejected(frame: seq<Byte>, k: nat)
    requires Decodable(frame)
    requires k < FrameLength(frame[2])
    ensures FromBytes(frame[..k]).None?
  {
    if k >= 3 {
      assert frame[..k][2] == frame[2];
    }
  }

  /** The queued flag `Message::new` records is the one carried in ctrl bit 1, and `rw` in bit 0. */
  lemma NewMessageCtrl(pid: ProtocolIds.ProtocolId, rw: Byte, isQueued: bool, value: Option<EncodedParams>)
    requires Encodable(New(pid, rw, isQueued, value))
    ensures var c := FromMessage(New(pid, rw, isQueued, value)).payload.ctrl;
            Bit0(c) == Bit0(rw) && (Mask2(c) == 2 <==> isQueued)
  {
    var m := New(pid, rw, isQueued, value);
    var q: Byte := if isQueued then 1 else 0;
    assert m.rw == rw && m.isQueued == q;
    CtrlOf(m, rw, q);
    Bit0OfBit(q);
  }

  /** The ctrl byte of a message's packet, stated through the message's own flags. */
  lemma CtrlOf(m: Message, rw: Byte, q: Byte)
    requires Encodable(m) && m.rw == rw && m.isQueued == q
    ensures Bit0(FromMessage(m).payload.ctrl) == Bit0(rw)
    ensures Mask2(FromMessage(m).payload.ctrl) == 2 * Bit0(q)
  {
    var c := FromMessage(m).payload.ctrl;
    assert c == Ctrl(rw, q);
  }

}
