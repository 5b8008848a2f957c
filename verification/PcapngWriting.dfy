/** The writer as the program runs it: bytes appended to buffers step by step. */
module PcapngWriting {
  import opened Bytes
  import opened Common
  import opened Pcapng

  /** A growing byte buffer: the body of a block under construction, or the output file. */
  class Sink {
    var bytes: seq<byte>

    constructor ()
      ensures bytes == []
    {
      bytes := [];
    }

    method WriteAll(b: seq<byte>)
      modifies this
      ensures bytes == old(bytes) + b
    {
      bytes := bytes + b;
    }

    method WriteU16(v: nat)
      requires v <= U16_MAX
      modifies this
      ensures bytes == old(bytes) + Le16(v)
    {
      WriteAll(Le16(v));
    }

    method WriteU32(v: nat)
      requires v <= U32_MAX
      modifies this
      ensures bytes == old(bytes) + Le32(v)
    {
      WriteAll(Le32(v));
    }

    method WritePadding(n: nat)
      modifies this
      ensures bytes == old(bytes) + Zeros(PaddingLen(n))
    {
      var zeroPad: seq<byte> := [0, 0, 0];
      assert zeroPad[..PaddingLen(n)] == Zeros(PaddingLen(n));
      WriteAll(zeroPad[..PaddingLen(n)]);
    }

    /** Fails, writing nothing, when the value is longer than a 16-bit length can say. */
    method WriteOption(code: nat, value: seq<byte>) returns (ok: bool)
      requires code <= U16_MAX
      modifies this
      ensures ok <==> |value| <= U16_MAX
      ensures bytes == if ok then old(bytes) + Opt(code, value) else old(bytes)
    {
      if |value| > U16_MAX {
        return false;
      }
      WriteU16(code);
      WriteU16(|value|);
      WriteAll(value);
      WritePadding(|value|);
      ok := true;
    }

    method WriteOptionEnd()
      modifies this
      ensures bytes == old(bytes) + END_OPTIONS
    {
      WriteU16(OPT_ENDOFOPT);
      WriteU16(0);
      assert Le(0, 2) == [0] + Le(0, 1) && Le(0, 1) == [0] + Le(0, 0);
    }

    /** Fails, writing nothing, when the block is longer than a 32-bit length can say. */
    method WriteBlock(kind: nat, body: Sink) returns (ok: bool)
      requires kind <= U32_MAX && body != this
      modifies this
      ensures ok <==> 12 + |body.bytes| <= U32_MAX
      ensures bytes == if ok then old(bytes) + Block(kind, body.bytes) else old(bytes)
    {
      if 12 + |body.bytes| > U32_MAX {
        return false;
      }
      var total := 12 + |body.bytes|;
      WriteU32(kind);
      WriteU32(total);
      WriteAll(body.bytes);
      WriteU32(total);
      ok := true;
    }
  }

  /** `SystemTime` as nanoseconds since the epoch, negative before it. */
  function TimestampMicros(nanos: int): (micros: nat)
    ensures nanos <= 0 ==> micros == 0
    ensures 0 <= nanos < 1000 * (U64_MAX + 1) ==> 1000 * micros <= nanos < 1000 * (micros + 1)
    ensures nanos >= 1000 * (U64_MAX + 1) ==> micros == U64_MAX
  {
    var micros := (if nanos < 0 then 0 else nanos) / 1000;
    if micros > U64_MAX then U64_MAX else micros
  }

  /** A link type that does not fit 16 bits falls back to Ethernet. */
  function LinktypeToU16(linktype: int): nat { if 0 <= linktype <= U16_MAX then linktype else 1 }

  function NonEmpty(o: Option<seq<byte>>): Option<seq<byte>> { if o.Some? && o.value == [] then None else o }

  /** What the file keeps of one call. */
  function PacketOf(nanos: int, data: seq<byte>, originalLen: nat, comment: Option<seq<byte>>): Packet {
    Packet(TimestampMicros(nanos), data, if originalLen < |data| then |data| else originalLen, NonEmpty(comment))
  }

  // ----- What a call asks for, in terms of its arguments alone

  /** The packet has the call's data, time, comment, and the larger of the two lengths. */
  predicate Keeps(p: Packet, nanos: int, data: seq<byte>, originalLen: nat, comment: Option<seq<byte>>) {
    && p.data == data
    && p.originalLen >= originalLen && p.originalLen >= |data|
    && (p.originalLen == originalLen || p.originalLen == |data|)
    && p.comment == (if comment == Some([]) then None else comment)
    && (nanos <= 0 ==> p.micros == 0)
    && (0 <= nanos < 1000 * 0x1_0000_0000_0000_0000 ==> 1000 * p.micros <= nanos < 1000 * (p.micros + 1))
    && (nanos >= 1000 * 0x1_0000_0000_0000_0000 ==> p.micros == 0xffff_ffff_ffff_ffff)
  }

  /** Data and comment fit their length fields, and the block with its padding fits its own. */
  predicate Fits(data: seq<byte>, comment: Option<seq<byte>>) {
    && |data| <= 0xffff_ffff
    && (comment.Some? ==> |comment.value| <= 0xffff)
    && 36 + 4 * ((|data| + 3) / 4) +
       (if comment.Some? && comment.value != [] then 4 + 4 * ((|comment.value| + 3) / 4) else 0) <= 0xffff_ffff
  }

  lemma PacketOfKeeps(nanos: int, data: seq<byte>, originalLen: nat, comment: Option<seq<byte>>)
    requires originalLen <= U32_MAX
    ensures var p := PacketOf(nanos, data, originalLen, comment);
            Keeps(p, nanos, data, originalLen, comment) && (GoodPacket(p) <==> Fits(data, comment))
  {
    hide EpbBody;
    var p := PacketOf(nanos, data, originalLen, comment);
    if Representable(p) {
      EpbLength(p);
      PaddedIsAligned(|data|);
      if p.comment.Some? {
        PaddedIsAligned(|p.comment.value|);
      }
    }
  }

  method SectionHeader(app: seq<byte>) returns (body: Sink)
    requires |app| <= U16_MAX
    ensures fresh(body) && body.bytes == ShbBody(app)
  {
    body := new Sink();
    body.WriteU32(BYTE_ORDER_MAGIC);
    body.WriteU16(1);
    body.WriteU16(0);
    body.WriteAll(UNSPECIFIED);
    var ok := body.WriteOption(SHB_USERAPPL, app);
    body.WriteOptionEnd();
    Regroup6([], Le32(BYTE_ORDER_MAGIC), Le16(1), Le16(0), UNSPECIFIED, Opt(SHB_USERAPPL, app), END_OPTIONS);
  }

  method InterfaceDescription(h: Header) returns (body: Sink)
    requires GoodHeader(h)
    ensures fresh(body) && body.bytes == IdbBody(h)
  {
    body := new Sink();
    body.WriteU16(h.linktype);
    body.WriteU16(0);
    body.WriteU32(h.snaplen);
    assert body.bytes == [] + Le16(h.linktype) + Le16(0) + Le32(h.snaplen) + [];
    var ok;
    if h.name.Some? {
      ok := body.WriteOption(IF_NAME, h.name.value);
    }
    assert body.bytes == [] + Le16(h.linktype) + Le16(0) + Le32(h.snaplen) + OptionOrNothing(IF_NAME, h.name);
    ok := body.WriteOption(IF_TSRESOL, [TSRESOL_MICROS]);
    body.WriteOptionEnd();
    Regroup6([], Le16(h.linktype), Le16(0), Le32(h.snaplen), OptionOrNothing(IF_NAME, h.name),
        Opt(IF_TSRESOL, [TSRESOL_MICROS]), END_OPTIONS);
  }

  lemma Regroup6(z: seq<byte>, a: seq<byte>, b: seq<byte>, c: seq<byte>, d: seq<byte>, e: seq<byte>, f: seq<byte>)
    requires z == []
    ensures z + a + b + c + d + e + f == a + (b + (c + (d + (e + f))))
  {
  }

  method WriteHeader(h: Header) returns (sink: Sink)
    requires GoodHeader(h)
    ensures fresh(sink) && sink.bytes == FileBytes(h, [])
  {
    sink := new Sink();
    var shb := SectionHeader(h.app);
    var idb := InterfaceDescription(h);
    EmptyFile(h);
    var shbOk := sink.WriteBlock(SHB_TYPE, shb);
    var idbOk := sink.WriteBlock(IDB_TYPE, idb);
  }

  lemma EmptyFile(h: Header)
    requires GoodHeader(h)
    ensures 12 + |ShbBody(h.app)| <= U32_MAX && 12 + |IdbBody(h)| <= U32_MAX
    ensures FileBytes(h, []) == [] + Block(SHB_TYPE, ShbBody(h.app)) + Block(IDB_TYPE, IdbBody(h))
  {
    HeadersFit(h);
    assert [] + Block(SHB_TYPE, ShbBody(h.app)) == Block(SHB_TYPE, ShbBody(h.app));
  }

  /** The fixed fields of a packet block. */
  method PacketFields(p: Packet) returns (body: Sink)
    requires p.micros <= U64_MAX && |p.data| <= p.originalLen <= U32_MAX
    ensures fresh(body)
    ensures body.bytes == EpbFields(p.micros, |p.data|, p.originalLen)
  {
    body := new Sink();
    body.WriteU32(0);
    body.WriteU32(p.micros / 0x1_0000_0000);
    body.WriteU32(p.micros % 0x1_0000_0000);
    body.WriteU32(|p.data|);
    body.WriteU32(p.originalLen);
    Regroup5([], Le32(0), Le32(p.micros / 0x1_0000_0000), Le32(p.micros % 0x1_0000_0000), Le32(|p.data|),
        Le32(p.originalLen));
  }

  lemma Regroup5(z: seq<byte>, a: seq<byte>, b: seq<byte>, c: seq<byte>, d: seq<byte>, e: seq<byte>)
    requires z == []
    ensures z + a + b + c + d + e == a + (b + (c + (d + e)))
  {
  }

  /** The body of a packet block; fails when the comment is longer than an option can be. */
  method EnhancedPacket(p: Packet) returns (ok: bool, body: Sink)
    requires p.micros <= U64_MAX && |p.data| <= p.originalLen <= U32_MAX
    requires p.comment.Some? ==> p.comment.value != []
    ensures fresh(body)
    ensures ok <==> Representable(p)
    ensures ok ==> body.bytes == EpbBody(p)
  {
    body := PacketFields(p);
    body.WriteAll(p.data);
    body.WritePadding(|p.data|);
    ok := true;
    if p.comment.Some? {
      ok := body.WriteOption(OPT_COMMENT, p.comment.value);
    }
    if ok {
      body.WriteOptionEnd();
      EpbConcat(p);
    }
  }

  lemma EpbConcat(p: Packet)
    requires Representable(p)
    ensures EpbFields(p.micros, |p.data|, p.originalLen) + p.data + Zeros(PaddingLen(|p.data|))
        + OptionOrNothing(OPT_COMMENT, p.comment) + END_OPTIONS
            == EpbBody(p)
  {
    Regroup(EpbFields(p.micros, |p.data|, p.originalLen), p.data, Zeros(PaddingLen(|p.data|)),
        OptionOrNothing(OPT_COMMENT, p.comment), END_OPTIONS);
  }

  lemma Regroup(a: seq<byte>, b: seq<byte>, c: seq<byte>, d: seq<byte>, e: seq<byte>)
    ensures a + b + c + d + e == a + ((b + c) + (d + e))
  {
  }

  class PcapngWriter {
    const out: Sink
    ghost const header: Header
    ghost var packets: seq<Packet>

    ghost predicate Valid()
      reads this, out
    {
      GoodHeader(header) && AllGood(packets) && out.bytes == FileBytes(header, packets)
    }

    constructor (app: seq<byte>, linktype: nat, snaplen: nat, name: Option<seq<byte>>)
      requires |app| <= U16_MAX && linktype <= U16_MAX && snaplen <= U32_MAX
      requires name.Some? ==> |name.value| <= U16_MAX
      ensures Valid() && fresh(out) && packets == [] && header == Header(app, linktype, snaplen, NonEmpty(name))
    {
      var h := Header(app, linktype, snaplen, NonEmpty(name));
      var sink := WriteHeader(h);
      out, header, packets := sink, h, [];
    }

    /**
     Accepts a packet exactly when its lengths can be represented; a rejected call adds no byte to
     the file.
     */
    method WritePacket(nanos: int, data: seq<byte>, originalLen: nat, comment: Option<seq<byte>>) returns (ok: bool)
      requires Valid() && originalLen <= U32_MAX
      modifies this`packets, out
      ensures Valid()
      ensures ok <==> GoodPacket(PacketOf(nanos, data, originalLen, comment))
      ensures packets == if ok then old(packets) + [PacketOf(nanos, data, originalLen, comment)] else old(packets)
      ensures ok <==> Fits(data, comment)
      ensures ok ==> exists p :: packets == old(packets) + [p] && Keeps(p, nanos, data, originalLen, comment)
      ensures !ok ==> out.bytes == old(out.bytes)
    {
      hide Fits, Keeps;
      PacketOfKeeps(nanos, data, originalLen, comment);
      if |data| > U32_MAX {
        return false;
      }
      var p := PacketOf(nanos, data, originalLen, comment);
      var body;
      ok, body := EnhancedPacket(p);
      if !ok {
        return;
      }
      ok := out.WriteBlock(EPB_TYPE, body);
      if ok {
        OneMorePacket(header, packets, p);
        packets := packets + [p];
      }
    }
  }

  /** One call of `write_packet`. */
  datatype Call = Call(nanos: int, data: seq<byte>, originalLen: nat, comment: Option<seq<byte>>) {
    function Packet(): Packet { PacketOf(nanos, data, originalLen, comment) }
  }

  function Accepted(calls: seq<Call>): seq<Packet> {
    if calls == [] then []
    else
      var last := calls[|calls| - 1].Packet();
      Accepted(calls[..|calls| - 1]) + if GoodPacket(last) then [last] else []
  }

  /** The packets are those of the calls that fit, in order. */
  ghost predicate KeptFrom(ps: seq<Packet>, calls: seq<Call>) {
    if calls == [] then ps == []
    else
      var front, c := calls[..|calls| - 1], calls[|calls| - 1];
      if Fits(c.data, c.comment) then
        ps != [] && KeptFrom(ps[..|ps| - 1], front) && Keeps(ps[|ps| - 1], c.nanos, c.data, c.originalLen, c.comment)
      else KeptFrom(ps, front)
  }

  lemma NoneAccepted()
    ensures Accepted([]) == []
  {
  }

  lemma OneMoreAccepted(calls: seq<Call>, c: Call)
    ensures Accepted(calls + [c]) == if GoodPacket(c.Packet()) then Accepted(calls) + [c.Packet()] else Accepted(calls)
  {
    assert (calls + [c])[..|calls|] == calls;
  }

  lemma {:induction false} AcceptedAreKept(calls: seq<Call>)
    requires forall i :: 0 <= i < |calls| ==> calls[i].originalLen <= U32_MAX
    ensures KeptFrom(Accepted(calls), calls)
  {
    hide Fits, Keeps, PacketOf, GoodPacket;
    if calls != [] {
      var front, c := calls[..|calls| - 1], calls[|calls| - 1];
      AcceptedAreKept(front);
      PacketOfKeeps(c.nanos, c.data, c.originalLen, c.comment);
      if Fits(c.data, c.comment) {
        assert (Accepted(front) + [c.Packet()])[..|Accepted(front)|] == Accepted(front);
      } else {
        assert Accepted(calls) == Accepted(front);
      }
    }
  }

  /** Any sequence of calls: the file parses back to the header and the accepted packets, in order. */
  method WriteSession(app: seq<byte>, linktype: int, snaplen: nat, name: Option<seq<byte>>, calls: seq<Call>)
      returns (bytes: seq<byte>)
    requires |app| <= U16_MAX && snaplen <= U32_MAX && (name.Some? ==> |name.value| <= U16_MAX)
    requires forall i :: 0 <= i < |calls| ==> calls[i].originalLen <= U32_MAX
    ensures ParseFile(bytes) == Some((Header(app, LinktypeToU16(linktype), snaplen, NonEmpty(name)), Accepted(calls)))
    ensures var (h, ps) := ParseFile(bytes).value;
            && KeptFrom(ps, calls)
            && h.app == app && h.snaplen == snaplen && h.name == (if name == Some([]) then None else name)
            && h.linktype == if 0 <= linktype < 0x1_0000 then linktype else 1
  {
    hide PacketOf, GoodPacket, GoodHeader, AllGood, FileBytes, ParseFile, Accepted, KeptFrom, Fits, Keeps;
    AcceptedAreKept(calls);
    NoneAccepted();
    var writer := new PcapngWriter(app, LinktypeToU16(linktype), snaplen, name);
    for n := 0 to |calls|
      invariant writer.Valid() && fresh(writer) && fresh(writer.out)
      invariant writer.packets == Accepted(calls[..n])
    {
      var c := calls[n];
      var ok := writer.WritePacket(c.nanos, c.data, c.originalLen, c.comment);
      assert calls[..n + 1] == calls[..n] + [c];
      OneMoreAccepted(calls[..n], c);
    }
    assert calls[..|calls|] == calls;
    FileRoundTrip(writer.header, writer.packets);
    bytes := writer.out.bytes;
  }
}
