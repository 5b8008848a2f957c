/**
 The kernel's socket tables `/proc/<pid>/net/{tcp,tcp6,udp,udp6}`: parsing a line, and the table that
 maps a connection to the process that owns its socket.
 */
module ProcNet {
  import opened Bytes
  import opened Common
  import opened Text

  datatype Protocol = Tcp | Udp

  /** Address bytes in network order, four or sixteen of them. */
  datatype Ip = V4(a: seq<byte>) | V6(b: seq<byte>)

  datatype Endpoint = Endpoint(ip: Ip, port: nat)

  datatype SocketKey = SocketKey(protocol: Protocol, local: Endpoint, remote: Endpoint)

  // ----- Parsing

  predicate IsSpace(c: char) { c == ' ' || '\t' <= c <= '\r' }

  /** The ASCII white space: tab, line feed, vertical tab, form feed, carriage return, space. */
  lemma AsciiSpaces(c: char)
    ensures IsSpace(c) <==> c as int in {9, 10, 11, 12, 13, 32}
  {
  }

  function SkipSpaces(s: string): string {
    if s != [] && IsSpace(s[0]) then SkipSpaces(s[1..]) else s
  }

  /** The characters up to the next space, and what follows. */
  function Word(s: string): (string, string) {
    if s == [] || IsSpace(s[0]) then ([], s)
    else
      var (w, rest) := Word(s[1..]);
      ([s[0]] + w, rest)
  }

  /** The next field of `split_whitespace`. */
  function NextField(s: string): Option<(string, string)> {
    var (w, rest) := Word(SkipSpaces(s));
    if w == [] then None else Some((w, rest))
  }

  function ParseIpv4Hex(s: string): Option<seq<byte>> {
    if |s| != 8 then None
    else
      match ParseHex(s, U32_MAX)
      case Some(v) => Some(Le(v, 4))
      case None => None
  }

  /** Words of eight hex digits, each one a little-endian 32-bit number. */
  function Words(s: string, n: nat): Option<seq<byte>>
    requires |s| == 8 * n
  {
    if n == 0 then Some([])
    else
      match (Words(s[..8 * (n - 1)], n - 1), ParseIpv4Hex(s[8 * (n - 1)..]))
      case (Some(front), Some(last)) => Some(front + last)
      case _ => None
  }

  lemma {:induction false} WordsLength(s: string, n: nat)
    requires |s| == 8 * n && Words(s, n).Some?
    ensures |Words(s, n).value| == 4 * n
  {
    if n > 0 {
      WordsLength(s[..8 * (n - 1)], n - 1);
    }
  }

  function ParseIpv6Hex(s: string): Option<seq<byte>> { if |s| != 32 then None else Words(s, 4) }

  /** The same, filling the sixteen bytes word by word. */
  method FillIpv6(s: string) returns (r: Option<seq<byte>>)
    ensures r == ParseIpv6Hex(s)
  {
    if |s| != 32 {
      return None;
    }
    var bytes := new byte[16](_ => 0);
    for i := 0 to 4
      invariant Words(s[..8 * i], i) == Some(bytes[..4 * i])
    {
      var chunk := s[i * 8..(i + 1) * 8];
      assert s[..8 * (i + 1)][..8 * i] == s[..8 * i] && s[..8 * (i + 1)][8 * i..] == chunk;
      var val := ParseHex(chunk, U32_MAX);
      if val == None {
        WordsFail(s, i + 1);
        return None;
      }
      CopyWord(bytes, i, Le(val.value, 4));
    }
    assert s[..32] == s && bytes[..16] == bytes[..];
    return Some(bytes[..]);
  }

  /** `bytes[i * 4..(i + 1) * 4].copy_from_slice(word)`. */
  method CopyWord(bytes: array<byte>, i: nat, word: seq<byte>)
    requires |word| == 4 && 4 * (i + 1) <= bytes.Length
    modifies bytes
    ensures bytes[..4 * (i + 1)] == old(bytes[..4 * i]) + word
  {
    for j := 0 to 4
      invariant bytes[..4 * i + j] == old(bytes[..4 * i]) + word[..j]
    {
      bytes[i * 4 + j] := word[j];
    }
  }

  lemma {:induction false} WordsFail(s: string, n: nat)
    requires |s| == 32 && n <= 4 && Words(s[..8 * n], n) == None
    ensures Words(s, 4) == None
    decreases 4 - n
  {
    if n < 4 {
      assert s[..8 * (n + 1)][..8 * n] == s[..8 * n];
      WordsFail(s, n + 1);
    } else {
      assert s[..32] == s;
    }
  }

  predicate IsMapped(b: seq<byte>) {
    |b| == 16 && (forall i :: 0 <= i < 10 ==> b[i] == 0) && b[10] == 255 && b[11] == 255
  }

  /** IPv4-mapped addresses (section 2.5.5.2 of RFC 4291) become plain IPv4. */
  function Normalise(ip: Ip): Ip { if ip.V6? && IsMapped(ip.b) then V4(ip.b[12..]) else ip }

  /** `::ffff:a.b.c.d` is `a.b.c.d`, and no other address changes. */
  lemma MappedIsIpv4(ip: Ip)
    ensures forall a: seq<byte> :: |a| == 4 && ip == V6([0, 0, 0, 0, 0, 0, 0, 0, 0, 0, 255, 255] + a) ==>
              Normalise(ip) == V4(a)
    ensures Normalise(ip) == ip ||
            (ip.V6? && |ip.b| == 16 && ip.b == [0, 0, 0, 0, 0, 0, 0, 0, 0, 0, 255, 255] + ip.b[12..])
  {
    forall a: seq<byte> | |a| == 4 && ip == V6([0, 0, 0, 0, 0, 0, 0, 0, 0, 0, 255, 255] + a)
      ensures Normalise(ip) == V4(a)
    {
      assert ip.b[12..] == a;
    }
  }

  function ParseAddrPort(field: string, v6: bool): Option<Endpoint> {
    match SplitOnce(field, ':')
    case None => None
    case Some((ipHex, portHex)) =>
      match ParseHex(portHex, U16_MAX)
      case None => None
      case Some(port) =>
        if v6 then
          match ParseIpv6Hex(ipHex)
          case Some(b) => Some(Endpoint(Normalise(V6(b)), port))
          case None => None
        else
          match ParseIpv4Hex(ipHex)
          case Some(a) => Some(Endpoint(V4(a), port))
          case None => None
  }

  function ParseLine(line: string, protocol: Protocol, v6: bool): Option<SocketKey> {
    match NextField(line)
    case None => None
    case Some((sl, rest0)) =>
      match NextField(rest0)
      case None => None
      case Some((localRaw, rest1)) =>
        match NextField(rest1)
        case None => None
        case Some((remoteRaw, _)) =>
          match (ParseAddrPort(localRaw, v6), ParseAddrPort(remoteRaw, v6))
          case (Some(local), Some(remote)) => Some(SocketKey(protocol, local, remote))
          case _ => None
  }

  // ----- The kernel's printer, on a little-endian host

  predicate GoodIp(ip: Ip) { match ip case V4(a) => |a| == 4 case V6(b) => |b| == 16 }

  predicate GoodEndpoint(e: Endpoint, v6: bool) { GoodIp(e.ip) && e.port <= U16_MAX && (v6 <==> e.ip.V6?) }

  /** `%08X` of the 32-bit word that four network-order bytes are in memory. */
  function PrintWord(b: seq<byte>): string { Hex(LeValue(b), 8) }

  function PrintWords(b: seq<byte>, n: nat): string
    requires |b| == 4 * n
  {
    if n == 0 then [] else PrintWords(b[..4 * (n - 1)], n - 1) + PrintWord(b[4 * (n - 1)..])
  }

  function PrintIp(ip: Ip): string
    requires GoodIp(ip)
  {
    match ip
    case V4(a) => PrintWords(a, 1)
    case V6(b) => PrintWords(b, 4)
  }

  function PrintEndpoint(e: Endpoint): string
    requires GoodIp(e.ip)
  {
    PrintIp(e.ip) + [':'] + Hex(e.port, 4)
  }

  /** `indent`, the slot number, both endpoints, and the further columns. */
  function PrintLine(indent: string, slot: string, local: Endpoint, remote: Endpoint, more: string): string
    requires GoodIp(local.ip) && GoodIp(remote.ip)
  {
    indent + (slot + ([' '] + (PrintEndpoint(local) + ([' '] + (PrintEndpoint(remote) + ([' '] + more))))))
  }

  // ----- Parsing undoes printing

  lemma {:induction false} WordBounds(n: nat)
    ensures Power256(4) == Power16(8) == U32_MAX + 1 && Power16(4) == U16_MAX + 1
  {
    assert Power256(2) == 0x1_0000 && Power256(3) == 0x100_0000;
    assert Power16(2) == 0x100 && Power16(3) == 0x1000;
    assert Power16(5) == 0x10_0000 && Power16(6) == 0x100_0000 && Power16(7) == 0x1000_0000;
  }

  lemma ParseWord(b: seq<byte>)
    requires |b| == 4
    ensures |PrintWord(b)| == 8 && ParseIpv4Hex(PrintWord(b)) == Some(b)
  {
    WordBounds(0);
    LeOfValue(b);
    ParseHexOf(LeValue(b), 8, U32_MAX);
  }

  lemma WordsAppend(front: string, n: nat, last: string)
    requires |front| == 8 * n && |last| == 8 && Words(front, n).Some? && ParseIpv4Hex(last).Some?
    ensures Words(front + last, n + 1) == Some(Words(front, n).value + ParseIpv4Hex(last).value)
  {
    assert (front + last)[..8 * n] == front && (front + last)[8 * n..] == last;
  }

  lemma {:induction false} ParseWords(b: seq<byte>, n: nat)
    requires |b| == 4 * n
    ensures |PrintWords(b, n)| == 8 * n && Words(PrintWords(b, n), n) == Some(b)
  {
    hide PrintWord, ParseIpv4Hex;
    if n > 0 {
      var front, last := b[..4 * (n - 1)], b[4 * (n - 1)..];
      ParseWords(front, n - 1);
      ParseWord(last);
      WordsAppend(PrintWords(front, n - 1), n - 1, PrintWord(last));
      assert b == front + last;
    }
  }

  predicate Printable(s: string) { forall i :: 0 <= i < |s| ==> IsHexDigit(s[i]) }

  lemma {:induction false} WordsAreHex(b: seq<byte>, n: nat)
    requires |b| == 4 * n
    ensures Printable(PrintWords(b, n))
  {
    if n > 0 {
      WordsAreHex(b[..4 * (n - 1)], n - 1);
      HexDigitsAreHex(LeValue(b[4 * (n - 1)..]), 8);
    }
  }

  lemma HexAvoids(s: string)
    requires Printable(s)
    ensures ':' !in s && forall i :: 0 <= i < |s| ==> !IsSpace(s[i])
  {
  }

  lemma ParseIp(ip: Ip)
    requires GoodIp(ip)
    ensures Printable(PrintIp(ip))
    ensures ip.V4? ==> ParseIpv4Hex(PrintIp(ip)) == Some(ip.a)
    ensures ip.V6? ==> ParseIpv6Hex(PrintIp(ip)) == Some(ip.b)
  {
    match ip
    case V4(a) =>
      WordsAreHex(a, 1);
      ParseWords(a, 1);
      ParseWord(a);
      assert PrintWords(a, 1) == PrintWord(a) by { assert a[0..] == a; }
    case V6(b) =>
      WordsAreHex(b, 4);
      ParseWords(b, 4);
  }

  lemma ParseEndpoint(e: Endpoint, v6: bool)
    requires GoodEndpoint(e, v6)
    ensures ParseAddrPort(PrintEndpoint(e), v6) == Some(Endpoint(Normalise(e.ip), e.port))
    ensures PrintEndpoint(e) != [] && forall i :: 0 <= i < |PrintEndpoint(e)| ==> !IsSpace(PrintEndpoint(e)[i])
  {
    var ip, port := PrintIp(e.ip), Hex(e.port, 4);
    ParseIp(e.ip);
    WordBounds(0);
    ParseHexOf(e.port, 4, U16_MAX);
    HexDigitsAreHex(e.port, 4);
    HexAvoids(ip);
    HexAvoids(port);
    SplitOnceAtFirst(ip, ':', port);
  }

  lemma {:induction false} WordOf(w: string, rest: string)
    requires forall i :: 0 <= i < |w| ==> !IsSpace(w[i])
    requires rest != [] && IsSpace(rest[0])
    ensures Word(w + rest) == (w, rest)
  {
    if w == [] {
      assert w + rest == rest;
    } else {
      assert (w + rest)[1..] == w[1..] + rest;
      WordOf(w[1..], rest);
      assert w == [w[0]] + w[1..];
    }
  }

  lemma {:induction false} SkipIndent(indent: string, s: string)
    requires forall i :: 0 <= i < |indent| ==> IsSpace(indent[i])
    requires s != [] && !IsSpace(s[0])
    ensures SkipSpaces(indent + s) == s
  {
    if indent == [] {
      assert indent + s == s;
    } else {
      assert (indent + s)[1..] == indent[1..] + s;
      SkipIndent(indent[1..], s);
    }
  }

  lemma FieldOf(indent: string, w: string, rest: string)
    requires forall i :: 0 <= i < |indent| ==> IsSpace(indent[i])
    requires w != [] && forall i :: 0 <= i < |w| ==> !IsSpace(w[i])
    requires rest != [] && IsSpace(rest[0])
    ensures NextField(indent + (w + rest)) == Some((w, rest))
  {
    SkipIndent(indent, w + rest);
    WordOf(w, rest);
  }

  /** Every line the kernel prints parses to its endpoints, IPv4-mapped ones as IPv4. */
  lemma LineRoundTrip(indent: string, slot: string, local: Endpoint, remote: Endpoint, more: string,
      protocol: Protocol, v6: bool)
    requires forall i :: 0 <= i < |indent| ==> IsSpace(indent[i])
    requires slot != [] && forall i :: 0 <= i < |slot| ==> !IsSpace(slot[i])
    requires GoodEndpoint(local, v6) && GoodEndpoint(remote, v6)
    ensures ParseLine(PrintLine(indent, slot, local, remote, more), protocol, v6) ==
            Some(SocketKey(protocol, Endpoint(Normalise(local.ip), local.port),
                Endpoint(Normalise(remote.ip), remote.port)))
  {
    ParseEndpoint(local, v6);
    ParseEndpoint(remote, v6);
    var r2 := [' '] + more;
    var r1 := [' '] + (PrintEndpoint(remote) + r2);
    var r0 := [' '] + (PrintEndpoint(local) + r1);
    FieldOf(indent, slot, r0);
    FieldOf([' '], PrintEndpoint(local), r1);
    FieldOf([' '], PrintEndpoint(remote), r2);
  }

  // ----- The socket table

  /** One line of one process's table file, in the order the files are read. */
  datatype Entry = Entry(pid: nat, line: string, protocol: Protocol, v6: bool)

  function KeyOf(e: Entry): Option<SocketKey> { ParseLine(e.line, e.protocol, e.v6) }

  /** The process of the first entry that parses to `key`. */
  function Owner(entries: seq<Entry>, key: SocketKey): Option<nat> {
    if entries == [] then None
    else
      var front, last := Owner(entries[..|entries| - 1], key), entries[|entries| - 1];
      if front.Some? then front else if KeyOf(last) == Some(key) then Some(last.pid) else None
  }

  /** The first process to list a socket keeps it. */
  method Build(entries: seq<Entry>) returns (byKey: map<SocketKey, nat>)
    ensures IsTable(entries, byKey)
  {
    byKey := map[];
    for n := 0 to |entries|
      invariant IsTable(entries[..n], byKey)
    {
      assert entries[..n + 1][..n] == entries[..n];
      var key := KeyOf(entries[n]);
      if key.Some? && key.value !in byKey {
        byKey := byKey[key.value := entries[n].pid];
      }
    }
    assert entries[..|entries|] == entries;
  }

  /** The owner is the process of the first entry for the socket, and there is one exactly if some entry is. */
  lemma {:induction false} OwnerIsFirst(entries: seq<Entry>, key: SocketKey)
    ensures Owner(entries, key) == None <==> forall i :: 0 <= i < |entries| ==> KeyOf(entries[i]) != Some(key)
    ensures Owner(entries, key).Some? ==>
              exists i :: 0 <= i < |entries| && KeyOf(entries[i]) == Some(key)
                          && Owner(entries, key) == Some(entries[i].pid)
                          && forall j :: 0 <= j < i ==> KeyOf(entries[j]) != Some(key)
  {
    hide KeyOf;
    if entries != [] {
      var n := |entries| - 1;
      OwnerIsFirst(entries[..n], key);
      assert forall i :: 0 <= i < n ==> entries[..n][i] == entries[i];
      assert KeyOf(entries[n]) == KeyOf(entries[n]);
    }
  }

  datatype Connection = Connection(protocol: Option<Protocol>, local: Endpoint, remote: Endpoint)

  function Flip(key: SocketKey): SocketKey { SocketKey(key.protocol, key.remote, key.local) }

  /** Both orientations are tried, the connection's own first. */
  function LookupConnection(byKey: map<SocketKey, nat>, c: Connection): Option<nat> {
    if c.protocol == None then None
    else
      var forward := SocketKey(c.protocol.value, c.local, c.remote);
      if forward in byKey then Some(byKey[forward])
      else if Flip(forward) in byKey then Some(byKey[Flip(forward)])
      else None
  }

  ghost predicate IsTable(entries: seq<Entry>, byKey: map<SocketKey, nat>) {
    forall key :: Owner(entries, key) == if key in byKey then Some(byKey[key]) else None
  }

  function Tuple(c: Connection): SocketKey
    requires c.protocol.Some?
  {
    SocketKey(c.protocol.value, c.local, c.remote)
  }

  /** A lookup answers with the first owner of the tuple, else of the reversed tuple. */
  lemma LookupIsOwner(entries: seq<Entry>, byKey: map<SocketKey, nat>, c: Connection)
    requires IsTable(entries, byKey) && c.protocol.Some?
    ensures LookupConnection(byKey, c) ==
            if Owner(entries, Tuple(c)).Some? then Owner(entries, Tuple(c)) else Owner(entries, Flip(Tuple(c)))
  {
  }

  /**
   A socket printed by the kernel for any process is found from either orientation of its normalised
   tuple: from its own, always with the first process that lists it; from the reverse as well unless
   some process lists the reverse tuple itself.
   */
  lemma PrintedSocketIsFound(entries: seq<Entry>, byKey: map<SocketKey, nat>, n: nat,
                             indent: string, slot: string, local: Endpoint, remote: Endpoint, more: string)
    requires IsTable(entries, byKey) && n < |entries|
    requires GoodEndpoint(local, entries[n].v6) && GoodEndpoint(remote, entries[n].v6)
    requires forall i :: 0 <= i < |indent| ==> IsSpace(indent[i])
    requires slot != [] && forall i :: 0 <= i < |slot| ==> !IsSpace(slot[i])
    requires entries[n].line == PrintLine(indent, slot, local, remote, more)
    ensures var l, r, p := Endpoint(Normalise(local.ip), local.port), Endpoint(Normalise(remote.ip), remote.port),
                Some(entries[n].protocol);
            var forward, backward := LookupConnection(byKey, Connection(p, l, r)),
                LookupConnection(byKey, Connection(p, r, l));
            var reverseOwner := Owner(entries, SocketKey(entries[n].protocol, r, l));
            && forward.Some? && forward == Owner(entries, SocketKey(entries[n].protocol, l, r))
            && backward == if reverseOwner.Some? then reverseOwner else forward
  {
    var l, r, p := Endpoint(Normalise(local.ip), local.port), Endpoint(Normalise(remote.ip), remote.port),
        entries[n].protocol;
    LineRoundTrip(indent, slot, local, remote, more, p, entries[n].v6);
    ListedHasOwner(entries, n, SocketKey(p, l, r));
    LookupIsOwner(entries, byKey, Connection(Some(p), l, r));
    LookupIsOwner(entries, byKey, Connection(Some(p), r, l));
  }

  lemma {:induction false} ListedHasOwner(entries: seq<Entry>, n: nat, key: SocketKey)
    requires n < |entries| && KeyOf(entries[n]) == Some(key)
    ensures Owner(entries, key).Some?
  {
    if n < |entries| - 1 {
      ListedHasOwner(entries[..|entries| - 1], n, key);
    }
  }
}
