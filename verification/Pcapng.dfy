/**
 The annotated PCAPNG file (draft-ietf-opsawg-pcapng): the writer, byte by byte, and a reader that
 undoes it. One little-endian section, one interface, Enhanced Packet Blocks with a comment option.
 */
module Pcapng {
  import opened Bytes
  import opened Common

  const SHB_TYPE := 0x0A0D_0D0A
  const IDB_TYPE := 1
  const EPB_TYPE := 6
  const BYTE_ORDER_MAGIC := 0x1A2B_3C4D
  const OPT_ENDOFOPT := 0
  const OPT_COMMENT := 1
  const SHB_USERAPPL := 4
  const IF_NAME := 2
  const IF_TSRESOL := 9
  const TSRESOL_MICROS := 6

  // ----- The format

  function Le16(v: nat): seq<byte>
    requires v <= U16_MAX
  {
    Le(v, 2)
  }

  function Le32(v: nat): seq<byte>
    requires v <= U32_MAX
  {
    Le(v, 4)
  }

  /** The section length -1 as a signed 64-bit number. */
  const UNSPECIFIED: seq<byte> := [255, 255, 255, 255, 255, 255, 255, 255]

  function PaddingLen(n: nat): nat { (4 - n % 4) % 4 }

  function PaddedLen(n: nat): nat { n + PaddingLen(n) }

  function Zeros(n: nat): seq<byte> { seq(n, _ => 0) }

  function Padded(b: seq<byte>): (r: seq<byte>)
    ensures |r| == PaddedLen(|b|) == 4 * ((|b| + 3) / 4)
  {
    PaddedIsAligned(|b|);
    b + Zeros(PaddingLen(|b|))
  }

  function Opt(code: nat, value: seq<byte>): seq<byte>
    requires code <= U16_MAX && |value| <= U16_MAX
  {
    Le16(code) + (Le16(|value|) + Padded(value))
  }

  const END_OPTIONS: seq<byte> := [0, 0, 0, 0]

  function Block(kind: nat, body: seq<byte>): seq<byte>
    requires kind <= U32_MAX && 12 + |body| <= U32_MAX
  {
    Le32(kind) + (Le32(12 + |body|) + (body + Le32(12 + |body|)))
  }

  datatype Header = Header(app: seq<byte>, linktype: nat, snaplen: nat, name: Option<seq<byte>>)

  /** A packet as the file keeps it. */
  datatype Packet = Packet(micros: nat, data: seq<byte>, originalLen: nat, comment: Option<seq<byte>>)

  function OptionOrNothing(code: nat, value: Option<seq<byte>>): seq<byte>
    requires code <= U16_MAX && (value.Some? ==> |value.value| <= U16_MAX)
  {
    if value.Some? then Opt(code, value.value) else []
  }

  predicate GoodHeader(h: Header) {
    && |h.app| <= U16_MAX && h.linktype <= U16_MAX && h.snaplen <= U32_MAX
    && (h.name.Some? ==> 0 < |h.name.value| <= U16_MAX)
  }

  function ShbBody(app: seq<byte>): seq<byte>
    requires |app| <= U16_MAX
  {
    Le32(BYTE_ORDER_MAGIC) + (Le16(1) + (Le16(0) + (UNSPECIFIED + (Opt(SHB_USERAPPL, app) + END_OPTIONS))))
  }

  function IdbBody(h: Header): seq<byte>
    requires GoodHeader(h)
  {
    Le16(h.linktype) + (Le16(0) + (Le32(h.snaplen) +
      (OptionOrNothing(IF_NAME, h.name) + (Opt(IF_TSRESOL, [TSRESOL_MICROS]) + END_OPTIONS))))
  }

  predicate Representable(p: Packet) {
    && p.micros <= U64_MAX && |p.data| <= U32_MAX && |p.data| <= p.originalLen <= U32_MAX
    && (p.comment.Some? ==> 0 < |p.comment.value| <= U16_MAX)
  }

  /** Interface 0, the timestamp in two halves, and the captured and original lengths. */
  function EpbFields(micros: nat, captured: nat, original: nat): (b: seq<byte>)
    requires micros <= U64_MAX && captured <= U32_MAX && original <= U32_MAX
    ensures |b| == 20
  {
    Le32(0) + (Le32(micros / 0x1_0000_0000) + (Le32(micros % 0x1_0000_0000) + (Le32(captured) + Le32(original))))
  }

  function EpbBody(p: Packet): seq<byte>
    requires Representable(p)
  {
    EpbFields(p.micros, |p.data|, p.originalLen)
        + (Padded(p.data) + (OptionOrNothing(OPT_COMMENT, p.comment) + END_OPTIONS))
  }

  predicate GoodPacket(p: Packet) { Representable(p) && 12 + |EpbBody(p)| <= U32_MAX }

  predicate AllGood(ps: seq<Packet>) {
    ps == [] || (AllGood(ps[..|ps| - 1]) && GoodPacket(ps[|ps| - 1]))
  }

  datatype RawBlock = RawBlock(kind: nat, body: seq<byte>)

  predicate GoodBlock(b: RawBlock) { b.kind <= U32_MAX && 12 + |b.body| <= U32_MAX && |b.body| % 4 == 0 }

  predicate GoodBlocks(bs: seq<RawBlock>) { forall i :: 0 <= i < |bs| ==> GoodBlock(bs[i]) }

  function Blocks(bs: seq<RawBlock>): seq<byte>
    requires GoodBlocks(bs)
  {
    if bs == [] then [] else Block(bs[0].kind, bs[0].body) + Blocks(bs[1..])
  }

  function PacketBlock(p: Packet): RawBlock
    requires GoodPacket(p)
  {
    RawBlock(EPB_TYPE, EpbBody(p))
  }

  function HeaderBytes(h: Header): seq<byte>
    requires GoodHeader(h)
  {
    HeadersFit(h);
    Block(SHB_TYPE, ShbBody(h.app)) + Block(IDB_TYPE, IdbBody(h))
  }

  /** The whole file, packet after packet. */
  ghost function FileBytes(h: Header, ps: seq<Packet>): seq<byte>
    requires GoodHeader(h) && AllGood(ps)
  {
    if ps == [] then HeaderBytes(h)
    else FileBytes(h, ps[..|ps| - 1]) + Block(EPB_TYPE, EpbBody(ps[|ps| - 1]))
  }

  lemma OptLength(code: nat, value: seq<byte>)
    requires code <= U16_MAX && |value| <= U16_MAX
    ensures |Opt(code, value)| == 4 + 4 * ((|value| + 3) / 4)
  {
    PaddedIsAligned(|value|);
  }

  lemma PaddedIsAligned(n: nat)
    ensures PaddedLen(n) == 4 * ((n + 3) / 4)
  {
  }

  lemma HeadersFit(h: Header)
    requires GoodHeader(h)
    ensures 12 + |ShbBody(h.app)| <= U32_MAX && |ShbBody(h.app)| % 4 == 0
    ensures 12 + |IdbBody(h)| <= U32_MAX && |IdbBody(h)| % 4 == 0
  {
    OptLength(SHB_USERAPPL, h.app);
    OptLength(IF_TSRESOL, [TSRESOL_MICROS]);
    if h.name.Some? {
      OptLength(IF_NAME, h.name.value);
    }
  }

  lemma EpbLength(p: Packet)
    requires Representable(p)
    ensures |EpbBody(p)| == 24 + PaddedLen(|p.data|) + (if p.comment.Some? then 4 + PaddedLen(|p.comment.value|) else 0)
    ensures |EpbBody(p)| % 4 == 0
  {
    hide PaddedLen, Padded, EpbFields, Le16, Opt;
    PaddedIsAligned(|p.data|);
    if p.comment.Some? {
      OptLength(OPT_COMMENT, p.comment.value);
      PaddedIsAligned(|p.comment.value|);
      var a, b := (|p.data| + 3) / 4, (|p.comment.value| + 3) / 4;
      assert |EpbBody(p)| == 4 * (7 + a + b);
    } else {
      assert |EpbBody(p)| == 4 * (6 + (|p.data| + 3) / 4);
    }
  }

  // ----- The bytes on the wire, with the numbers of the format spelled out

  lemma Le16Bytes(low: byte, high: byte)
    ensures Le16(low + 256 * high) == [low, high]
  {
    assert LeValue([high]) == high;
    assert [low, high][1..] == [high];
    LeOfValue([low, high]);
  }

  lemma Le32Bytes(a: byte, b: byte, c: byte, d: byte)
    ensures Le32(a + 256 * (b + 256 * (c + 256 * d))) == [a, b, c, d]
  {
    assert [a, b, c, d][1..] == [b, c, d] && [b, c, d][1..] == [c, d] && [c, d][1..] == [d];
    assert LeValue([d]) == d;
    assert LeValue([c, d]) == c + 256 * LeValue([d]);
    assert LeValue([b, c, d]) == b + 256 * LeValue([c, d]);
    LeOfValue([a, b, c, d]);
  }

  function WirePadded(b: seq<byte>): seq<byte> { b + seq((4 - |b| % 4) % 4, _ => 0) }

  /** A block: type, length, body, and the length once more. */
  ghost predicate IsWireBlock(bytes: seq<byte>, kind: seq<byte>, body: seq<byte>) {
    12 + |body| <= 0xffff_ffff && bytes == kind + (Le32(12 + |body|) + (body + Le32(12 + |body|)))
  }

  ghost function WireName(name: Option<seq<byte>>): seq<byte>
    requires name.Some? ==> |name.value| <= 0xffff
  {
    if name.Some? then [2, 0] + (Le16(|name.value|) + WirePadded(name.value)) else []
  }

  /** Section header: byte-order magic, version 1.0, unspecified length, option 4 with the application's name. */
  lemma SectionHeaderBytes(app: seq<byte>)
    requires |app| <= 0xffff
    ensures ShbBody(app) ==
            [0x4D, 0x3C, 0x2B, 0x1A] + ([1, 0] + ([0, 0] + ([255, 255, 255, 255, 255, 255, 255, 255] +
            (([4, 0] + (Le16(|app|) + WirePadded(app))) + [0, 0, 0, 0]))))
  {
    Le32Bytes(0x4D, 0x3C, 0x2B, 0x1A);
    Le16Bytes(1, 0);
    Le16Bytes(0, 0);
    Le16Bytes(4, 0);
  }

  /** Interface description: link type, snap length, option 2 if it has a name, option 9 saying microseconds (6). */
  lemma InterfaceBytes(h: Header)
    requires GoodHeader(h)
    ensures IdbBody(h) ==
            Le16(h.linktype) + ([0, 0] + (Le32(h.snaplen) +
              (WireName(h.name) + ([9, 0, 1, 0, 6, 0, 0, 0] + [0, 0, 0, 0]))))
  {
    Le16Bytes(0, 0);
    Le16Bytes(2, 0);
    TimestampOption();
  }

  lemma TimestampOption()
    ensures Opt(IF_TSRESOL, [TSRESOL_MICROS]) == [9, 0, 1, 0, 6, 0, 0, 0]
  {
    Le16Bytes(9, 0);
    Le16Bytes(1, 0);
    assert Padded([TSRESOL_MICROS]) == [6, 0, 0, 0];
  }

  /** The file starts with a block of type 0x0A0D0D0A and one of type 1. */
  lemma HeaderOnTheWire(h: Header)
    requires GoodHeader(h)
    ensures exists shb, idb :: HeaderBytes(h) == shb + idb &&
              IsWireBlock(shb, [0x0A, 0x0D, 0x0D, 0x0A], ShbBody(h.app)) && IsWireBlock(idb, [1, 0, 0, 0], IdbBody(h))
    ensures (12 + |ShbBody(h.app)|) % 4 == 0 && (12 + |IdbBody(h)|) % 4 == 0
  {
    HeadersFit(h);
    Le32Bytes(0x0A, 0x0D, 0x0D, 0x0A);
    Le32Bytes(1, 0, 0, 0);
    hide ShbBody, IdbBody, Le32;
    var shb, idb := Block(SHB_TYPE, ShbBody(h.app)), Block(IDB_TYPE, IdbBody(h));
    assert IsWireBlock(shb, [0x0A, 0x0D, 0x0D, 0x0A], ShbBody(h.app)) && IsWireBlock(idb, [1, 0, 0, 0], IdbBody(h));
  }

  /** A packet's block: type 6, interface 0, both halves of the time, both lengths, data, and option 1 for a comment. */
  lemma PacketOnTheWire(p: Packet)
    requires GoodPacket(p)
    ensures IsWireBlock(Block(EPB_TYPE, EpbBody(p)), [6, 0, 0, 0], EpbBody(p)) && (12 + |EpbBody(p)|) % 4 == 0
    ensures EpbBody(p) ==
            ([0, 0, 0, 0] + (Le32(p.micros / 0x1_0000_0000) + (Le32(p.micros % 0x1_0000_0000) +
              (Le32(|p.data|) + Le32(p.originalLen))))) +
            (WirePadded(p.data) + (WireComment(p.comment) + [0, 0, 0, 0]))
  {
    EpbLength(p);
    Le32Bytes(6, 0, 0, 0);
    Le32Bytes(0, 0, 0, 0);
    Le16Bytes(1, 0);
  }

  ghost function WireComment(comment: Option<seq<byte>>): seq<byte>
    requires comment.Some? ==> |comment.value| <= 0xffff
  {
    if comment.Some? then [1, 0] + (Le16(|comment.value|) + WirePadded(comment.value)) else []
  }

  // ----- The reader

  datatype Parsed<T> = Parsed(value: T, rest: seq<byte>)

  function TakeLe(b: seq<byte>, n: nat): (r: Option<Parsed<nat>>)
    ensures r.Some? ==> |b| == n + |r.value.rest|
  {
    if n == 0 then Some(Parsed(0, b))
    else if b == [] then None
    else
      match TakeLe(b[1..], n - 1)
      case None => None
      case Some(high) => Some(Parsed(b[0] as int + 256 * high.value, high.rest))
  }

  function Take16(b: seq<byte>): Option<Parsed<nat>> { TakeLe(b, 2) }

  function Take32(b: seq<byte>): Option<Parsed<nat>> { TakeLe(b, 4) }

  function TakeBytes(b: seq<byte>, n: nat): Option<Parsed<seq<byte>>> {
    if |b| < n then None else Some(Parsed(b[..n], b[n..]))
  }

  function TakePadded(b: seq<byte>, n: nat): Option<Parsed<seq<byte>>> {
    if |b| < PaddedLen(n) then None else Some(Parsed(b[..n], b[PaddedLen(n)..]))
  }

  /** A block: its length is a multiple of four and is repeated at its end. */
  function TakeBlock(b: seq<byte>): (r: Option<Parsed<RawBlock>>)
    ensures r.Some? ==> |r.value.rest| < |b|
  {
    match Take32(b)
    case None => None
    case Some(kind) =>
      match Take32(kind.rest)
      case None => None
      case Some(len) =>
        if len.value < 12 || len.value % 4 != 0 then None
        else
          match TakeBytes(len.rest, len.value - 12)
          case None => None
          case Some(body) =>
            match Take32(body.rest)
            case None => None
            case Some(trailer) =>
              if trailer.value != len.value then None else Some(Parsed(RawBlock(kind.value, body.value), trailer.rest))
  }

  /** The options up to the end-of-options mark, which must be the last thing in the body. */
  function ParseOptions(b: seq<byte>): Option<seq<(nat, seq<byte>)>>
    decreases |b|
  {
    match Take16(b)
    case None => None
    case Some(code) =>
      match Take16(code.rest)
      case None => None
      case Some(len) =>
        if code.value == OPT_ENDOFOPT then (if len.value == 0 && len.rest == [] then Some([]) else None)
        else
          match TakePadded(len.rest, len.value)
          case None => None
          case Some(value) =>
            match ParseOptions(value.rest)
            case None => None
            case Some(more) => Some([(code.value, value.value)] + more)
  }

  function FindOption(options: seq<(nat, seq<byte>)>, code: nat): Option<seq<byte>> {
    if options == [] then None
    else if options[0].0 == code then Some(options[0].1)
    else FindOption(options[1..], code)
  }

  datatype Fixed = Fixed(iface: nat, high: nat, low: nat, captured: nat, original: nat)

  function TakeFixed(body: seq<byte>): Option<Parsed<Fixed>> {
    match Take32(body)
    case None => None
    case Some(iface) =>
      match Take32(iface.rest)
      case None => None
      case Some(high) =>
        match Take32(high.rest)
        case None => None
        case Some(low) =>
          match Take32(low.rest)
          case None => None
          case Some(captured) =>
            match Take32(captured.rest)
            case None => None
            case Some(original) =>
              Some(Parsed(Fixed(iface.value, high.value, low.value, captured.value, original.value), original.rest))
  }

  function ParsePacket(body: seq<byte>): Option<Packet> {
    match TakeFixed(body)
    case None => None
    case Some(fixed) =>
      match TakePadded(fixed.rest, fixed.value.captured)
      case None => None
      case Some(data) =>
        match ParseOptions(data.rest)
        case None => None
        case Some(options) =>
          if fixed.value.iface != 0 then None
          else Some(Packet(fixed.value.high * 0x1_0000_0000 + fixed.value.low, data.value, fixed.value.original,
                           FindOption(options, OPT_COMMENT)))
  }

  function TakeBlocks(b: seq<byte>): Option<seq<RawBlock>>
    decreases |b|
  {
    if b == [] then Some([])
    else
      match TakeBlock(b)
      case None => None
      case Some(block) =>
        match TakeBlocks(block.rest)
        case None => None
        case Some(more) => Some([block.value] + more)
  }

  function ParseAll(bs: seq<RawBlock>, parse: RawBlock -> Option<Packet>): Option<seq<Packet>> {
    if bs == [] then Some([])
    else
      match parse(bs[0])
      case None => None
      case Some(p) =>
        match ParseAll(bs[1..], parse)
        case None => None
        case Some(ps) => Some([p] + ps)
  }

  function ParsePacketBlock(b: RawBlock): Option<Packet> { if b.kind != EPB_TYPE then None else ParsePacket(b.body) }

  function ParseShb(body: seq<byte>): Option<seq<byte>> {
    match Take32(body)
    case None => None
    case Some(magic) =>
      match TakeBytes(magic.rest, 12)
      case None => None
      case Some(fixed) =>
        match ParseOptions(fixed.rest)
        case None => None
        case Some(options) =>
          if magic.value != BYTE_ORDER_MAGIC || fixed.value != [1, 0, 0, 0] + UNSPECIFIED then None
          else FindOption(options, SHB_USERAPPL)
  }

  function ParseIdb(app: seq<byte>, body: seq<byte>): Option<Header> {
    match Take16(body)
    case None => None
    case Some(linktype) =>
      match Take16(linktype.rest)
      case None => None
      case Some(reserved) =>
        match Take32(reserved.rest)
        case None => None
        case Some(snaplen) =>
          match ParseOptions(snaplen.rest)
          case None => None
          case Some(options) =>
            if FindOption(options, IF_TSRESOL) != Some([TSRESOL_MICROS]) then None
            else Some(Header(app, linktype.value, snaplen.value, FindOption(options, IF_NAME)))
  }

  function ParseFile(b: seq<byte>): Option<(Header, seq<Packet>)> {
    match TakeBlocks(b)
    case None => None
    case Some(bs) =>
      if |bs| < 2 || bs[0].kind != SHB_TYPE || bs[1].kind != IDB_TYPE then None
      else
        match ParseShb(bs[0].body)
        case None => None
        case Some(app) =>
          match ParseIdb(app, bs[1].body)
          case None => None
          case Some(h) =>
            match ParseAll(bs[2..], ParsePacketBlock)
            case None => None
            case Some(ps) => Some((h, ps))
  }

  // ----- Reading undoes writing

  lemma {:induction false} TakeLeOf(v: nat, n: nat, r: seq<byte>)
    requires v < Power256(n)
    ensures TakeLe(Le(v, n) + r, n) == Some(Parsed(v, r))
  {
    if n == 0 {
      assert Le(v, n) + r == r;
    } else {
      var low, high := v % 256, v / 256;
      TakeLeOf(high, n - 1, r);
      assert Le(v, n) + r == [low] + (Le(high, n - 1) + r);
      FirstByte(low, Le(high, n - 1) + r);
    }
  }

  lemma FirstByte(low: byte, rest: seq<byte>)
    ensures ([low] + rest)[0] == low && ([low] + rest)[1..] == rest
  {
  }

  lemma Take16Of(v: nat, r: seq<byte>)
    requires v <= U16_MAX
    ensures Take16(Le16(v) + r) == Some(Parsed(v, r))
  {
    assert Power256(1) == 256;
    TakeLeOf(v, 2, r);
  }

  lemma Take32Of(v: nat, r: seq<byte>)
    requires v <= U32_MAX
    ensures Take32(Le32(v) + r) == Some(Parsed(v, r))
  {
    assert Power256(1) == 256;
    assert Power256(3) == 256 * Power256(2);
    TakeLeOf(v, 4, r);
  }

  lemma TakeBytesOf(v: seq<byte>, r: seq<byte>)
    ensures TakeBytes(v + r, |v|) == Some(Parsed(v, r))
  {
    assert (v + r)[..|v|] == v && (v + r)[|v|..] == r;
  }

  lemma TakePaddedOf(v: seq<byte>, r: seq<byte>)
    ensures TakePadded(Padded(v) + r, |v|) == Some(Parsed(v, r))
  {
    var b := Padded(v) + r;
    assert |Padded(v)| == PaddedLen(|v|);
    assert b[..|v|] == v && b[PaddedLen(|v|)..] == r;
  }

  lemma TakeBlockOf(kind: nat, body: seq<byte>, r: seq<byte>)
    requires kind <= U32_MAX && 12 + |body| <= U32_MAX && |body| % 4 == 0
    ensures TakeBlock(Block(kind, body) + r) == Some(Parsed(RawBlock(kind, body), r))
  {
    var len := Le32(12 + |body|);
    assert Block(kind, body) + r == Le32(kind) + (len + (body + (len + r)));
    Take32Of(kind, len + (body + (len + r)));
    Take32Of(12 + |body|, body + (len + r));
    TakeBytesOf(body, len + r);
    Take32Of(12 + |body|, r);
  }

  lemma ParseEnd()
    ensures ParseOptions(END_OPTIONS) == Some([])
  {
    assert END_OPTIONS == Le16(0) + (Le16(0) + []);
    Take16Of(0, Le16(0) + []);
    Take16Of(0, []);
  }

  lemma ParseOneOption(code: nat, value: seq<byte>, r: seq<byte>)
    requires 0 < code <= U16_MAX && |value| <= U16_MAX
    requires ParseOptions(r).Some?
    ensures ParseOptions(Opt(code, value) + r) == Some([(code, value)] + ParseOptions(r).value)
  {
    assert Opt(code, value) + r == Le16(code) + (Le16(|value|) + (Padded(value) + r));
    Take16Of(code, Le16(|value|) + (Padded(value) + r));
    Take16Of(|value|, Padded(value) + r);
    TakePaddedOf(value, r);
  }

  /** The one optional option of a packet. */
  lemma CommentOptions(comment: Option<seq<byte>>)
    requires comment.Some? ==> |comment.value| <= U16_MAX
    ensures var o := ParseOptions(OptionOrNothing(OPT_COMMENT, comment) + END_OPTIONS);
            o.Some? && FindOption(o.value, OPT_COMMENT) == comment
  {
    ParseEnd();
    if comment.Some? {
      ParseOneOption(OPT_COMMENT, comment.value, END_OPTIONS);
    } else {
      assert OptionOrNothing(OPT_COMMENT, comment) + END_OPTIONS == END_OPTIONS;
    }
  }

  lemma TakeFixedOf(micros: nat, captured: nat, original: nat, r: seq<byte>)
    requires micros <= U64_MAX && captured <= U32_MAX && original <= U32_MAX
    ensures TakeFixed(EpbFields(micros, captured, original) + r) ==
            Some(Parsed(Fixed(0, micros / 0x1_0000_0000, micros % 0x1_0000_0000, captured, original), r))
  {
    var high, low := micros / 0x1_0000_0000, micros % 0x1_0000_0000;
    var r4 := Le32(original) + r;
    var r3 := Le32(captured) + r4;
    var r2 := Le32(low) + r3;
    var r1 := Le32(high) + r2;
    assert EpbFields(micros, captured, original) + r == Le32(0) + r1;
    Take32Of(0, r1);
    Take32Of(high, r2);
    Take32Of(low, r3);
    Take32Of(captured, r4);
    Take32Of(original, r);
  }

  lemma PacketRoundTrip(p: Packet)
    requires Representable(p)
    ensures ParsePacket(EpbBody(p)) == Some(p)
  {
    hide TakeFixed, TakePadded, ParseOptions, FindOption, EpbFields, Padded, OptionOrNothing;
    var options := OptionOrNothing(OPT_COMMENT, p.comment) + END_OPTIONS;
    TakeFixedOf(p.micros, |p.data|, p.originalLen, Padded(p.data) + options);
    TakePaddedOf(p.data, options);
    CommentOptions(p.comment);
    Halves(p.micros);
  }

  lemma Halves(n: nat)
    ensures n / 0x1_0000_0000 * 0x1_0000_0000 + n % 0x1_0000_0000 == n
  {
  }

  lemma {:induction false} BlocksRoundTrip(bs: seq<RawBlock>)
    requires GoodBlocks(bs)
    ensures TakeBlocks(Blocks(bs)) == Some(bs)
  {
    if bs != [] {
      var r := Blocks(bs[1..]);
      BlocksRoundTrip(bs[1..]);
      TakeBlockOf(bs[0].kind, bs[0].body, r);
      assert bs == [bs[0]] + bs[1..];
    }
  }

  lemma {:induction false} ParseAllOf(bs: seq<RawBlock>, parse: RawBlock -> Option<Packet>, ps: seq<Packet>)
    requires |bs| == |ps| && forall i :: 0 <= i < |bs| ==> parse(bs[i]) == Some(ps[i])
    ensures ParseAll(bs, parse) == Some(ps)
  {
    if ps != [] {
      ParseAllOf(bs[1..], parse, ps[1..]);
      assert ps == [ps[0]] + ps[1..];
    }
  }

  lemma ShbRoundTrip(app: seq<byte>)
    requires |app| <= U16_MAX
    ensures ParseShb(ShbBody(app)) == Some(app)
  {
    var options := Opt(SHB_USERAPPL, app) + END_OPTIONS;
    var fixed: seq<byte> := [1, 0, 0, 0] + UNSPECIFIED;
    assert ShbBody(app) == Le32(BYTE_ORDER_MAGIC) + (fixed + options);
    Take32Of(BYTE_ORDER_MAGIC, fixed + options);
    TakeBytesOf(fixed, options);
    ParseEnd();
    ParseOneOption(SHB_USERAPPL, app, END_OPTIONS);
  }

  lemma InterfaceOptions(name: Option<seq<byte>>)
    requires name.Some? ==> |name.value| <= U16_MAX
    ensures var o := ParseOptions(OptionOrNothing(IF_NAME, name) + (Opt(IF_TSRESOL, [TSRESOL_MICROS]) + END_OPTIONS));
            o.Some? && FindOption(o.value, IF_NAME) == name && FindOption(o.value, IF_TSRESOL) == Some([TSRESOL_MICROS])
  {
    var resolution := Opt(IF_TSRESOL, [TSRESOL_MICROS]) + END_OPTIONS;
    var found := [(IF_TSRESOL, [TSRESOL_MICROS])];
    ParseEnd();
    ParseOneOption(IF_TSRESOL, [TSRESOL_MICROS], END_OPTIONS);
    assert found + [] == found && found[1..] == [];
    if name.Some? {
      ParseOneOption(IF_NAME, name.value, resolution);
      assert ([(IF_NAME, name.value)] + found)[1..] == found;
    } else {
      assert OptionOrNothing(IF_NAME, name) + resolution == resolution;
    }
  }

  lemma IdbRoundTrip(h: Header)
    requires GoodHeader(h)
    ensures ParseIdb(h.app, IdbBody(h)) == Some(h)
  {
    var options := OptionOrNothing(IF_NAME, h.name) + (Opt(IF_TSRESOL, [TSRESOL_MICROS]) + END_OPTIONS);
    Take16Of(h.linktype, Le16(0) + (Le32(h.snaplen) + options));
    Take16Of(0, Le32(h.snaplen) + options);
    Take32Of(h.snaplen, options);
    InterfaceOptions(h.name);
  }

  lemma Associative(a: seq<byte>, b: seq<byte>, c: seq<byte>)
    ensures a + (b + c) == a + b + c
  {
  }

  lemma {:induction false} OneMoreBlock(bs: seq<RawBlock>, b: RawBlock)
    requires GoodBlocks(bs) && GoodBlock(b)
    ensures GoodBlocks(bs + [b]) && Blocks(bs + [b]) == Blocks(bs) + Block(b.kind, b.body)
  {
    if bs == [] {
      assert bs + [b] == [b] && [b][1..] == [];
    } else {
      assert (bs + [b])[1..] == bs[1..] + [b] && (bs + [b])[0] == bs[0];
      OneMoreBlock(bs[1..], b);
      Associative(Block(bs[0].kind, bs[0].body), Blocks(bs[1..]), Block(b.kind, b.body));
    }
  }

  function HeaderBlocks(h: Header): seq<RawBlock>
    requires GoodHeader(h)
  {
    [RawBlock(SHB_TYPE, ShbBody(h.app)), RawBlock(IDB_TYPE, IdbBody(h))]
  }

  lemma HeaderIsBlocks(h: Header)
    requires GoodHeader(h)
    ensures GoodBlocks(HeaderBlocks(h)) && Blocks(HeaderBlocks(h)) == HeaderBytes(h)
  {
    HeadersFit(h);
    var shb, idb := RawBlock(SHB_TYPE, ShbBody(h.app)), RawBlock(IDB_TYPE, IdbBody(h));
    OneMoreBlock([], shb);
    OneMoreBlock([shb], idb);
    assert [] + [shb] == [shb] && [shb] + [idb] == [shb, idb];
    assert Blocks([shb]) == [] + Block(shb.kind, shb.body) == Block(shb.kind, shb.body);
  }

  function PacketBlocks(ps: seq<Packet>): seq<RawBlock>
    requires AllGood(ps)
  {
    if ps == [] then [] else PacketBlocks(ps[..|ps| - 1]) + [PacketBlock(ps[|ps| - 1])]
  }

  lemma {:induction false} PacketBlocksParse(ps: seq<Packet>, parse: RawBlock -> Option<Packet>)
    requires AllGood(ps)
    requires forall p :: GoodPacket(p) ==> parse(PacketBlock(p)) == Some(p)
    ensures var bs := PacketBlocks(ps); |bs| == |ps| && forall i :: 0 <= i < |ps| ==> parse(bs[i]) == Some(ps[i])
  {
    if ps != [] {
      PacketBlocksParse(ps[..|ps| - 1], parse);
    }
  }

  /** The file is the header blocks followed by one block per packet. */
  lemma {:induction false} FileIsBlocks(h: Header, ps: seq<Packet>)
    requires GoodHeader(h) && AllGood(ps)
    ensures GoodBlocks(HeaderBlocks(h) + PacketBlocks(ps))
    ensures Blocks(HeaderBlocks(h) + PacketBlocks(ps)) == FileBytes(h, ps)
  {
    var header := HeaderBlocks(h);
    if ps == [] {
      HeaderIsBlocks(h);
      assert header + [] == header;
    } else {
      var before, block := PacketBlocks(ps[..|ps| - 1]), PacketBlock(ps[|ps| - 1]);
      FileIsBlocks(h, ps[..|ps| - 1]);
      EpbLength(ps[|ps| - 1]);
      OneMoreBlock(header + before, block);
      Regroup(header, before, block);
    }
  }

  lemma Regroup(a: seq<RawBlock>, b: seq<RawBlock>, c: RawBlock)
    ensures a + b + [c] == a + (b + [c])
  {
  }

  lemma GoodIsRepresentable(p: Packet)
    requires GoodPacket(p)
    ensures Representable(p)
  {
  }

  lemma HeaderFields(h: Header)
    requires GoodHeader(h)
    ensures |h.app| <= U16_MAX
  {
  }

  /** The bytes of a file read back as its header and exactly its packets. */
  lemma FileRoundTrip(h: Header, ps: seq<Packet>)
    requires GoodHeader(h) && AllGood(ps)
    ensures ParseFile(FileBytes(h, ps)) == Some((h, ps))
  {
    hide EpbBody, ParsePacket, ShbBody, IdbBody, ParseShb, ParseIdb, TakeBlocks, Blocks, FileBytes, ParseAll, AllGood;
    hide PacketBlocks, GoodHeader, GoodPacket;
    var parse: RawBlock -> Option<Packet> := ParsePacketBlock;
    forall p | GoodPacket(p) ensures parse(PacketBlock(p)) == Some(p) {
      GoodIsRepresentable(p);
      PacketRoundTrip(p);
    }
    PacketBlocksParse(ps, parse);
    HeaderFields(h);
    FileIsBlocks(h, ps);
    var bs := HeaderBlocks(h) + PacketBlocks(ps);
    BlocksRoundTrip(bs);
    assert bs[2..] == PacketBlocks(ps) && bs[0] == HeaderBlocks(h)[0] && bs[1] == HeaderBlocks(h)[1];
    ShbRoundTrip(h.app);
    IdbRoundTrip(h);
    ParseAllOf(PacketBlocks(ps), parse, ps);
  }

  /** Appending one block is what writing one more packet means. */
  lemma OneMorePacket(h: Header, ps: seq<Packet>, p: Packet)
    requires GoodHeader(h) && AllGood(ps) && GoodPacket(p)
    ensures AllGood(ps + [p]) && FileBytes(h, ps + [p]) == FileBytes(h, ps) + Block(EPB_TYPE, EpbBody(p))
  {
    assert (ps + [p])[..|ps|] == ps;
  }
}
