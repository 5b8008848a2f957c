/**
 The PCAPNG export thread: a bounded FIFO queue of packets that wait for their connection to be
 attributed to a process, in front of the file writer.

 Other threads change the connection tracker at any time, so every lookup may answer anything.
 */
module ExportPipeline {
  import opened Bytes
  import opened Common
  import opened Pcapng
  import opened PcapngWriting

  const MAX_RETRY_RECORDS := 10_000
  const MAX_RETRY_BYTES := 64 * 1024 * 1024
  const USIZE_MAX := U64_MAX
  /** No vector is longer than this. */
  const ISIZE_MAX := 0x7fff_ffff_ffff_ffff

  datatype Record = Record(
    data: seq<byte>, timestamp: int, originalLen: nat,
    key: Option<nat>, createdAt: Option<int>, deadline: int)

  /** A tracked connection; `details` are its further comment fields, already printed. */
  datatype Conn = Conn(createdAt: int, process: Option<seq<byte>>, pid: Option<seq<byte>>, details: seq<seq<byte>>)

  predicate GoodRecord(r: Record) { r.originalLen <= U32_MAX && |r.data| <= ISIZE_MAX }

  // ----- Comments

  function AsciiBytes(s: string): seq<byte> { seq(|s|, i requires 0 <= i < |s| => s[i] as int % 256) }

  function JoinFields(fields: seq<seq<byte>>): seq<byte> {
    if fields == [] then []
    else if |fields| == 1 then fields[0]
    else fields[0] + AsciiBytes(" ") + JoinFields(fields[1..])
  }

  function Field(name: string, value: Option<seq<byte>>): seq<seq<byte>> {
    if value.Some? then [AsciiBytes(name) + value.value] else []
  }

  function BuildComment(c: Conn): Option<seq<byte>> {
    var fields := [AsciiBytes("rustnet")] + Field("process=", c.process) + Field("pid=", c.pid) + c.details;
    if |fields| == 1 then None else Some(JoinFields(fields))
  }

  predicate Attributed(c: Conn) { c.pid.Some? || c.process.Some? }

  /** The tracker's answer counts only for the connection the packet was queued under. */
  predicate SameGeneration(r: Record, found: Option<Conn>) {
    r.key.Some? && found.Some? && r.createdAt == Some(found.value.createdAt)
  }

  function AttributedComment(r: Record, found: Option<Conn>): Option<seq<byte>> {
    if SameGeneration(r, found) && Attributed(found.value) then BuildComment(found.value) else None
  }

  function AnyComment(r: Record, found: Option<Conn>): Option<seq<byte>> {
    if SameGeneration(r, found) then BuildComment(found.value) else None
  }

  /** Each text after a space. */
  function Spaced(fields: seq<seq<byte>>): seq<byte> {
    if fields == [] then [] else [32] + fields[0] + Spaced(fields[1..])
  }

  lemma {:induction false} JoinIsSpaced(first: seq<byte>, rest: seq<seq<byte>>)
    ensures JoinFields([first] + rest) == first + Spaced(rest)
    decreases |rest|
  {
    if rest != [] {
      JoinIsSpaced(rest[0], rest[1..]);
      assert ([first] + rest)[1..] == [rest[0]] + rest[1..];
      assert AsciiBytes(" ") == [32];
      assert first + [32] + (rest[0] + Spaced(rest[1..])) == first + ([32] + rest[0] + Spaced(rest[1..]));
    }
  }

  lemma {:induction false} SpacedAppend(a: seq<seq<byte>>, b: seq<seq<byte>>)
    ensures Spaced(a + b) == Spaced(a) + Spaced(b)
  {
    if a == [] {
      assert a + b == b;
    } else {
      assert (a + b)[1..] == a[1..] + b;
      SpacedAppend(a[1..], b);
    }
  }

  /** `rustnet process=<name> pid=<pid> <details>`, without what is missing; nothing if all of it is. */
  lemma CommentText(c: Conn)
    ensures BuildComment(c) == None <==> c.process == None && c.pid == None && c.details == []
    ensures BuildComment(c).Some? ==>
              BuildComment(c).value == AsciiBytes("rustnet") +
                ((if c.process.Some? then [32] + (AsciiBytes("process=") + c.process.value) else []) +
                 ((if c.pid.Some? then [32] + (AsciiBytes("pid=") + c.pid.value) else []) + Spaced(c.details)))
  {
    hide JoinFields, AsciiBytes, Spaced;
    var process, pid := Field("process=", c.process), Field("pid=", c.pid);
    var rest := process + (pid + c.details);
    assert [AsciiBytes("rustnet")] + process + pid + c.details == [AsciiBytes("rustnet")] + rest;
    JoinIsSpaced(AsciiBytes("rustnet"), rest);
    SpacedAppend(process, pid + c.details);
    SpacedAppend(pid, c.details);
    OneSpaced("process=", c.process);
    OneSpaced("pid=", c.pid);
  }

  lemma OneSpaced(name: string, value: Option<seq<byte>>)
    ensures Spaced(Field(name, value)) == if value.Some? then [32] + (AsciiBytes(name) + value.value) else []
  {
    if value.Some? {
      var text := AsciiBytes(name) + value.value;
      var fields: seq<seq<byte>> := [text];
      assert fields[1..] == [] && [32] + text + [] == [32] + text;
    }
  }

  /** A comment is never empty, and an attributed connection always has one. */
  lemma CommentExists(c: Conn)
    ensures BuildComment(c).Some? ==> BuildComment(c).value != []
    ensures Attributed(c) ==> BuildComment(c).Some?
  {
    var fields := [AsciiBytes("rustnet")] + Field("process=", c.process) + Field("pid=", c.pid) + c.details;
    assert fields[0] == AsciiBytes("rustnet") && |fields[0]| == 7;
  }

  function TotalLen(rs: seq<Record>): nat { if rs == [] then 0 else |rs[0].data| + TotalLen(rs[1..]) }

  lemma {:induction false} TotalLenAppend(rs: seq<Record>, r: Record)
    ensures TotalLen(rs + [r]) == TotalLen(rs) + |r.data|
  {
    if rs == [] {
      assert rs + [r] == [r] && [r][1..] == [];
    } else {
      assert (rs + [r])[1..] == rs[1..] + [r];
      TotalLenAppend(rs[1..], r);
    }
  }

  function SaturatingAdd(a: nat, b: nat): nat { if a + b > USIZE_MAX then USIZE_MAX else a + b }

  function SaturatingSub(a: nat, b: nat): nat { if a < b then 0 else a - b }

  predicate OverLimits(count: nat, bytes: nat) { count > MAX_RETRY_RECORDS || bytes > MAX_RETRY_BYTES }

  // ----- The trace: what happened to the queue, and what the tracker answered

  /** The tracker's answer to one lookup; without a key nothing is asked and the answer is `None`. */
  datatype Answer = Answer(key: Option<nat>, found: Option<Conn>)

  /** Why a record left the queue: a flush at `now` that first asked the tracker, or the limits. */
  datatype Why = Flush(now: int, forced: bool, first: Option<Conn>) | OverLimit

  /**
   One turn of the queue. `Waits` is a flush that stops at the front record. A record that leaves is
   looked up once more (`second`) unless the first answer attributed it.
   */
  datatype Turn =
    | Arrives(record: Record)
    | Waits(now: int, first: Option<Conn>)
    | Leaves(record: Record, why: Why, second: Option<Conn>, written: bool)
  {
    /** The attribution found first, or else any metadata found by the second lookup. */
    function Comment(): Option<seq<byte>>
      requires Leaves?
    {
      if Attributes() then AttributedComment(record, why.first) else AnyComment(record, second)
    }

    predicate Attributes()
      requires Leaves?
    {
      why.Flush? && AttributedComment(record, why.first).Some?
    }

    function Packet(): Packet
      requires Leaves?
    {
      PacketOf(record.timestamp, record.data, record.originalLen, Comment())
    }

    /** The answers a leaving record received. */
    function Asks(): seq<Answer>
      requires Leaves?
    {
      (if why.Flush? then [Answer(record.key, why.first)] else [])
      + if Attributes() then [] else [Answer(record.key, second)]
    }

    predicate Forced() { Leaves? && why.Flush? && why.forced }
  }

  ghost function Queue(trace: seq<Turn>): seq<Record> {
    if trace == [] then [] else Moved(Queue(trace[..|trace| - 1]), trace[|trace| - 1])
  }

  function Moved(q: seq<Record>, t: Turn): seq<Record> {
    if t.Arrives? then q + [t.record] else if t.Leaves? && q != [] then q[1..] else q
  }

  ghost function Arrived(trace: seq<Turn>): seq<Record> {
    if trace == [] then []
    else
      var last := trace[|trace| - 1];
      Arrived(trace[..|trace| - 1]) + if last.Arrives? then [last.record] else []
  }

  ghost function Left(trace: seq<Turn>): seq<Record> {
    if trace == [] then []
    else
      var last := trace[|trace| - 1];
      Left(trace[..|trace| - 1]) + if last.Leaves? then [last.record] else []
  }

  /** All answers of the tracker in the order of the lookups. */
  ghost function Asked(trace: seq<Turn>): seq<Answer> {
    if trace == [] then []
    else
      var before := trace[..|trace| - 1];
      Asked(before) + AsksAfter(before, trace[|trace| - 1])
  }

  /** A flush that stops has asked about the record at the front. */
  ghost function AsksAfter(before: seq<Turn>, t: Turn): seq<Answer> {
    match t
    case Arrives(_) => []
    case Waits(_, first) => if Queue(before) == [] then [] else [Answer(Queue(before)[0].key, first)]
    case Leaves(_, _, _, _) => t.Asks()
  }

  /** The packets of the written records. */
  ghost function Written(trace: seq<Turn>): seq<Packet> {
    if trace == [] then []
    else
      var last := trace[|trace| - 1];
      Written(trace[..|trace| - 1]) + if last.Leaves? && last.written then [last.Packet()] else []
  }

  datatype Counters = Counters(written: nat, annotated: nat, unannotated: nat, errors: nat)

  function Count(c: Counters, t: Turn): Counters {
    if !t.Leaves? then c
    else if !t.written then c.(errors := c.errors + 1)
    else if t.Comment().Some? then c.(written := c.written + 1, annotated := c.annotated + 1)
    else c.(written := c.written + 1, unannotated := c.unannotated + 1)
  }

  ghost function CountersOf(trace: seq<Turn>): Counters {
    if trace == [] then Counters(0, 0, 0, 0) else Count(CountersOf(trace[..|trace| - 1]), trace[|trace| - 1])
  }

  /** Since the last arrival a flush has run until the queue was empty or its front had to wait. */
  ghost predicate Settled(trace: seq<Turn>) {
    Queue(trace) == [] ||
    (trace != [] &&
     var last := trace[|trace| - 1];
     last.Waits? || (last.Leaves? && last.why.OverLimit? && Settled(trace[..|trace| - 1])))
  }

  /** A keyed record that the tracker does not attribute waits until its deadline. */
  predicate MustWait(r: Record, first: Option<Conn>, now: int) {
    r.key.Some? && AttributedComment(r, first) == None && r.deadline > now
  }

  /** Records leave from the front; before the deadline only without a key, attributed, forced or over the limits. */
  ghost predicate MayLeave(before: seq<Turn>, t: Turn)
    requires t.Leaves?
  {
    var q := Queue(before);
    && q != [] && t.record == q[0] && GoodRecord(t.record)
    && match t.why
       case Flush(now, forced, first) => forced || !MustWait(t.record, first, now)
       case OverLimit => OverLimits(|q|, TotalLen(q))
  }

  /** A write fails only for a packet the format cannot hold. */
  ghost predicate Allowed(before: seq<Turn>, t: Turn) {
    match t
    case Arrives(record) =>
      GoodRecord(record) && Settled(before) && !OverLimits(|Queue(before)|, TotalLen(Queue(before)))
    case Waits(now, first) => Queue(before) != [] && MustWait(Queue(before)[0], first, now)
    case Leaves(_, _, _, written) => MayLeave(before, t) && (written <==> GoodPacket(t.Packet()))
  }

  ghost predicate Legal(trace: seq<Turn>) {
    trace == [] || (Legal(trace[..|trace| - 1]) && Allowed(trace[..|trace| - 1], trace[|trace| - 1]))
  }

  lemma OneMore(trace: seq<Turn>, t: Turn)
    ensures Queue(trace + [t]) == Moved(Queue(trace), t)
    ensures Arrived(trace + [t]) == if t.Arrives? then Arrived(trace) + [t.record] else Arrived(trace)
    ensures Asked(trace + [t]) == Asked(trace) + AsksAfter(trace, t)
    ensures Written(trace + [t]) == if t.Leaves? && t.written then Written(trace) + [t.Packet()] else Written(trace)
    ensures CountersOf(trace + [t]) == Count(CountersOf(trace), t)
    ensures Legal(trace + [t]) <==> Legal(trace) && Allowed(trace, t)
    ensures t.Waits? ==> Settled(trace + [t])
    ensures t.Leaves? && t.why == OverLimit && Settled(trace) ==> Settled(trace + [t])
  {
    hide Allowed, Count, AsksAfter;
    assert (trace + [t])[..|trace|] == trace;
  }

  // ----- What every legal trace guarantees

  /** Nothing is lost, duplicated or reordered: what arrived has left or is still queued, in order. */
  lemma {:induction false} NothingLost(trace: seq<Turn>)
    requires Legal(trace)
    ensures Arrived(trace) == Left(trace) + Queue(trace)
  {
    hide GoodRecord, GoodPacket, Settled, MustWait, OverLimits;
    if trace != [] {
      NothingLost(trace[..|trace| - 1]);
    }
  }

  function Commented(ps: seq<Packet>): nat {
    if ps == [] then 0 else Commented(ps[..|ps| - 1]) + if ps[|ps| - 1].comment.Some? then 1 else 0
  }

  /** The counters agree with the file: its packets, and those of them that carry a comment. */
  lemma {:induction false} CountersMatchFile(trace: seq<Turn>)
    requires Legal(trace)
    ensures var c := CountersOf(trace);
            && c.written == |Written(trace)| && c.annotated == Commented(Written(trace))
            && c.written == c.annotated + c.unannotated && c.written + c.errors == |Left(trace)|
  {
    hide Allowed, PacketOf, BuildComment, Commented;
    if trace == [] {
      assert Commented([]) == 0 by { NoneCommented(); }
    } else {
      var before, t := trace[..|trace| - 1], trace[|trace| - 1];
      CountersMatchFile(before);
      if t.Leaves? && t.written {
        CommentIsKept(t);
        OneMoreCommented(Written(before), t.Packet());
      } else {
        assert Written(trace) == Written(before);
      }
    }
  }

  lemma NoneCommented()
    ensures Commented([]) == 0
  {
  }

  lemma OneMoreCommented(ps: seq<Packet>, p: Packet)
    ensures Commented(ps + [p]) == Commented(ps) + if p.comment.Some? then 1 else 0
  {
    assert (ps + [p])[..|ps|] == ps;
  }

  /** The file keeps the comment as it is, since no comment is empty. */
  lemma CommentIsKept(t: Turn)
    requires t.Leaves?
    ensures t.Packet().comment == t.Comment()
  {
    if t.why.Flush? && SameGeneration(t.record, t.why.first) {
      CommentExists(t.why.first.value);
    }
    if SameGeneration(t.record, t.second) {
      CommentExists(t.second.value);
    }
  }

  /** In a settled trace with records queued, nothing has happened since a flush stopped but evictions. */
  lemma {:induction false} SettledSince(trace: seq<Turn>) returns (k: nat)
    requires Settled(trace) && Queue(trace) != []
    ensures k < |trace| && trace[k].Waits?
    ensures forall j :: k < j < |trace| ==> trace[j].Leaves? && trace[j].why == OverLimit
  {
    hide Queue;
    var n := |trace| - 1;
    if trace[n].Waits? {
      k := n;
    } else {
      QueueBeforeLeaving(trace);
      k := SettledSince(trace[..n]);
    }
  }

  lemma QueueBeforeLeaving(trace: seq<Turn>)
    requires trace != [] && trace[|trace| - 1].Leaves? && Queue(trace) != []
    ensures Queue(trace[..|trace| - 1]) != []
  {
  }

  lemma {:induction false} EveryTurnAllowed(trace: seq<Turn>, i: nat)
    requires Legal(trace) && i < |trace|
    ensures Allowed(trace[..i], trace[i])
  {
    hide Allowed;
    if i < |trace| - 1 {
      EveryTurnAllowed(trace[..|trace| - 1], i);
      assert trace[..|trace| - 1][..i] == trace[..i];
    }
  }

  lemma {:induction false} AnswersAreAsked(trace: seq<Turn>, i: nat, a: Answer)
    requires i < |trace| && a in AsksAfter(trace[..i], trace[i])
    ensures a in Asked(trace)
  {
    hide AsksAfter;
    if i < |trace| - 1 {
      assert trace[..|trace| - 1][..i] == trace[..i];
      AnswersAreAsked(trace[..|trace| - 1], i, a);
    }
  }

  /**
   Annotation is sound and complete. A comment was built from a connection that the tracker returned for
   the record's own key and that was created when the record says it was, so a record without a creation
   time, or whose answers all have another one, has none. A first answer of that generation with a
   process or a pid gives the comment, and failing that any second answer of that generation.
   */
  lemma AnnotationIsSound(trace: seq<Turn>, i: nat)
    requires Legal(trace) && i < |trace| && trace[i].Leaves?
    ensures var t, r := trace[i], trace[i].record;
            t.Comment().Some? ==>
              exists a :: a in Asked(trace) && a.key == r.key && r.key.Some? && a.found.Some? &&
                          r.createdAt == Some(a.found.value.createdAt) && t.Comment() == BuildComment(a.found.value)
    ensures var t, r := trace[i], trace[i].record;
            (r.createdAt == None || forall a :: a in Asked(trace) && a.key == r.key && a.found.Some? ==>
                                                  a.found.value.createdAt != r.createdAt.value) ==>
            t.Comment() == None
    ensures trace[i].why.Flush? && AttributedNow(trace[i].record, trace[i].why.first) ==>
              trace[i].Comment() == BuildComment(trace[i].why.first.value) && trace[i].Comment().Some?
    ensures var t, r := trace[i], trace[i].record;
            !(t.why.Flush? && AttributedNow(r, t.why.first)) && r.key.Some? && t.second.Some? &&
            r.createdAt == Some(t.second.value.createdAt) ==>
              t.Comment() == BuildComment(t.second.value)
  {
    hide BuildComment, Asked;
    var t := trace[i];
    if t.why.Flush? && SameGeneration(t.record, t.why.first) {
      CommentExists(t.why.first.value);
    }
    if t.Comment().Some? {
      var a := Answer(t.record.key, if t.Attributes() then t.why.first else t.second);
      assert a in t.Asks();
      AnswersAreAsked(trace, i, a);
    }
  }

  /** The answer is a connection of the record's own generation that has a process or a pid. */
  predicate AttributedNow(r: Record, found: Option<Conn>) {
    && r.key.Some? && found.Some? && r.createdAt == Some(found.value.createdAt)
    && (found.value.process.Some? || found.value.pid.Some?)
  }

  /** Before its deadline a keyed record leaves an unforced flush only with its attribution as comment. */
  lemma LeavesEarlyAttributed(trace: seq<Turn>, i: nat)
    requires Legal(trace) && i < |trace| && trace[i].Leaves? && trace[i].why.Flush? && !trace[i].why.forced
    requires trace[i].record.key.Some? && trace[i].record.deadline > trace[i].why.now
    ensures AttributedNow(trace[i].record, trace[i].why.first)
    ensures trace[i].Comment() == BuildComment(trace[i].why.first.value)
  {
    hide BuildComment;
    EveryTurnAllowed(trace, i);
  }

  /** The limits force a record out only from more than 10 000 records or 64 MiB. */
  lemma EvictedOverLimits(trace: seq<Turn>, i: nat)
    requires Legal(trace) && i < |trace| && trace[i].Leaves? && trace[i].why == OverLimit
    ensures |Queue(trace[..i])| > 10_000 || TotalLen(Queue(trace[..i])) > 67_108_864
    ensures Queue(trace[..i]) != [] && trace[i].record == Queue(trace[..i])[0]
  {
    hide Queue, TotalLen;
    EveryTurnAllowed(trace, i);
  }

  /**
   The packets are those of the records that fit the format, in the order they left, each with the
   record's data, time and larger length, and with the comment that its lookups determine.
   */
  ghost predicate FileHolds(ps: seq<Packet>, trace: seq<Turn>) {
    if trace == [] then ps == []
    else
      var front, t := trace[..|trace| - 1], trace[|trace| - 1];
      if t.Leaves? && Fits(t.record.data, t.Comment()) then
        && t.written && ps != [] && FileHolds(ps[..|ps| - 1], front)
        && Keeps(ps[|ps| - 1], t.record.timestamp, t.record.data, t.record.originalLen, t.Comment())
        && ps[|ps| - 1].comment == t.Comment()
      else FileHolds(ps, front) && (t.Leaves? ==> !t.written)
  }

  lemma {:induction false} WrittenAreHeld(trace: seq<Turn>)
    requires Legal(trace)
    ensures FileHolds(Written(trace), trace)
  {
    hide Fits, Keeps, PacketOf, GoodPacket, BuildComment, AttributedComment, AnyComment;
    if trace != [] {
      var front, t := trace[..|trace| - 1], trace[|trace| - 1];
      WrittenAreHeld(front);
      if t.Leaves? {
        PacketOfKeeps(t.record.timestamp, t.record.data, t.record.originalLen, t.Comment());
        CommentIsKept(t);
      }
      if t.Leaves? && t.written {
        assert (Written(front) + [t.Packet()])[..|Written(front)|] == Written(front);
      } else {
        assert Written(trace) == Written(front);
      }
    }
  }

  class Exporter {
    const writer: PcapngWriter
    var pending: seq<Record>
    var pendingBytes: nat
    var counters: Counters
    ghost var trace: seq<Turn>
    ghost var answers: seq<Answer>

    ghost predicate Valid()
      reads this, writer, writer.out
    {
      InFlight([], [])
    }

    /** The invariant, with the records `taken` out of the queue and answers not yet part of the trace. */
    ghost predicate InFlight(taken: seq<Record>, loose: seq<Answer>)
      reads this, writer, writer.out
    {
      && writer.Valid() && Legal(trace)
      && taken + pending == Queue(trace)
      && (forall i :: 0 <= i < |pending| ==> GoodRecord(pending[i]))
      && pendingBytes == TotalLen(pending)
      && answers == Asked(trace) + loose
      && writer.packets == Written(trace) && counters == CountersOf(trace)
    }

    constructor (w: PcapngWriter)
      requires w.Valid() && w.packets == []
      ensures Valid() && writer == w && trace == [] && answers == [] && pending == []
    {
      writer := w;
      pending, pendingBytes := [], 0;
      counters := Counters(0, 0, 0, 0);
      trace, answers := [], [];
    }

    /** Any answer: the tracker belongs to other threads. */
    method Lookup(key: Option<nat>) returns (found: Option<Conn>)
      modifies this`answers
      ensures answers == old(answers) + [Answer(key, found)]
    {
      found := None;
      if key.Some? {
        found := *;
      }
      answers := answers + [Answer(key, found)];
    }

    /** Write one record that has left the queue, and count it; `turn` says all but whether it was written. */
    method WriteRecord(record: Record, comment: Option<seq<byte>>, ghost turn: Turn)
      returns (ghost done: Turn)
      requires turn.Leaves? && turn.record == record && turn.Comment() == comment
      requires InFlight([record], turn.Asks()) && MayLeave(trace, turn)
      modifies this`counters, this`trace, writer`packets, writer.out
      ensures Valid() && trace == old(trace) + [done] && done == turn.(written := done.written)
      ensures Arrived(trace) == old(Arrived(trace)) && (turn.why == OverLimit && old(Settled(trace)) ==> Settled(trace))
    {
      hide PcapngWriter.Valid, GoodPacket, PacketOf, TotalLen;
      hide Legal, Queue, Arrived, Asked, Written, CountersOf, Settled;
      hide AttributedComment, AnyComment, BuildComment;
      var ok := writer.WritePacket(record.timestamp, record.data, record.originalLen, comment);
      done := turn.(written := ok);
      OneMore(trace, done);
      if !ok {
        counters := counters.(errors := counters.errors + 1);
      } else if comment.Some? {
        counters := counters.(written := counters.written + 1, annotated := counters.annotated + 1);
      } else {
        counters := counters.(written := counters.written + 1, unannotated := counters.unannotated + 1);
      }
      trace := trace + [done];
    }

    /** Take the oldest record off the queue. */
    method PopFront(ghost loose: seq<Answer>) returns (record: Record)
      requires InFlight([], loose) && pending != []
      modifies this`pending, this`pendingBytes
      ensures record == old(pending)[0] == Queue(trace)[0] && pending == old(pending)[1..]
      ensures InFlight([record], loose) && GoodRecord(record)
    {
      hide PcapngWriter.Valid, Legal, Queue, Asked, Written, CountersOf;
      record := pending[0];
      pending := pending[1..];
      pendingBytes := SaturatingSub(pendingBytes, |record.data|);
      assert [] + old(pending) == [record] + pending;
    }

    /** Let the front record go after the tracker answered `found` for it. */
    method Release(now: int, force: bool, found: Option<Conn>) returns (ghost done: Turn)
      requires pending != [] && InFlight([], [Answer(pending[0].key, found)])
      requires force || !MustWait(pending[0], found, now)
      modifies this, writer`packets, writer.out
      ensures Valid() && pending == old(pending)[1..]
      ensures trace == old(trace) + [done] && done.Leaves? && done.why == Flush(now, force, found)
      ensures Arrived(trace) == old(Arrived(trace))
    {
      hide PcapngWriter.Valid, Legal, Queue, Asked, Written, CountersOf, Settled, Arrived, TotalLen;
      hide AttributedComment, AnyComment;
      var record := PopFront([Answer(pending[0].key, found)]);
      var comment, second := AttributedComment(record, found), None;
      if comment == None {
        second := Lookup(record.key);
        comment := AnyComment(record, second);
      }
      done := WriteRecord(record, comment, Leaves(record, Flush(now, force, found), second, false));
    }

    /** Let the front record go because the queue is over its limits. */
    method Evict() returns (ghost done: Turn)
      requires Valid() && OverLimits(|pending|, pendingBytes)
      modifies this, writer`packets, writer.out
      ensures Valid() && pending == old(pending)[1..]
      ensures trace == old(trace) + [done] && done.Leaves? && done.why == OverLimit
      ensures Arrived(trace) == old(Arrived(trace)) && (old(Settled(trace)) ==> Settled(trace))
    {
      hide PcapngWriter.Valid, Legal, Queue, Asked, Written, CountersOf, Settled, Arrived;
      hide AttributedComment, AnyComment;
      var record := PopFront([]);
      var found := Lookup(record.key);
      done := WriteRecord(record, AnyComment(record, found), Leaves(record, OverLimit, found, false));
    }

    /** The front record stays after the tracker answered `found` for it. */
    ghost method NoteWait(now: int, found: Option<Conn>)
      requires pending != [] && InFlight([], [Answer(pending[0].key, found)]) && MustWait(pending[0], found, now)
      modifies this`trace
      ensures Valid() && Settled(trace) && trace == old(trace) + [Waits(now, found)]
      ensures Arrived(trace) == old(Arrived(trace))
    {
      hide PcapngWriter.Valid, Legal, Queue, Asked, Written, CountersOf, Settled, Arrived, TotalLen, GoodRecord;
      OneMore(trace, Waits(now, found));
      trace := trace + [Waits(now, found)];
    }

    /**
     Write out records in arrival order, up to the first one that the tracker does not attribute. A
     record without a key, or past its deadline, or forced, does not wait.
     */
    method FlushReady(now: int, force: bool)
      requires Valid()
      modifies this, writer`packets, writer.out
      ensures Valid() && Settled(trace) && IsSuffix(pending, old(pending)) && Arrived(trace) == old(Arrived(trace))
      ensures old(trace) <= trace && FlushTurns(trace, |old(trace)|, now, force)
      ensures pending == [] || (!force && AskedInVain(pending[0], now, answers))
      ensures (forall i :: 0 <= i < |old(pending)| ==> old(pending)[i].deadline <= now) ==> pending == []
    {
      hide PcapngWriter.Valid, Legal, Queue, Asked, Written, CountersOf, Settled, Arrived, TotalLen, GoodRecord;
      while pending != []
        invariant Valid() && IsSuffix(pending, old(pending)) && Arrived(trace) == old(Arrived(trace))
        invariant old(trace) <= trace && FlushTurns(trace, |old(trace)|, now, force)
        invariant forall i :: |old(trace)| <= i < |trace| ==> trace[i].Leaves?
        decreases |pending|
      {
        var found := Lookup(pending[0].key);
        var comment := AttributedComment(pending[0], found);
        var expired := force || pending[0].deadline <= now;
        if pending[0].key.Some? && comment == None && !expired {
          NoteWait(now, found);
          return;
        }
        ghost var done := Release(now, force, found);
      }
      EmptyIsSettled(trace);
    }

    /** Every received record joins the queue first, so that an attributed one cannot overtake another. */
    method HandleRecord(record: Record, now: int)
      requires Valid() && GoodRecord(record) && Settled(trace) && !OverLimits(|pending|, pendingBytes)
      modifies this, writer`packets, writer.out
      ensures Valid() && Settled(trace) && Arrived(trace) == old(Arrived(trace)) + [record]
      ensures old(trace) + [Arrives(record)] <= trace && FlushTurns(trace, |old(trace)| + 1, now, false)
      ensures pending == [] || AskedInVain(pending[0], now, answers)
    {
      hide PcapngWriter.Valid, Legal, Queue, Asked, Written, CountersOf, Settled, Arrived, TotalLen;
      OneMore(trace, Arrives(record));
      TotalLenAppend(pending, record);
      pendingBytes := SaturatingAdd(pendingBytes, |record.data|);
      assert [] + pending == pending;
      pending := pending + [record];
      trace := trace + [Arrives(record)];
      FlushReady(now, false);
    }

    /** Force out the oldest records, and no more of them than the limits demand. */
    method EnforceRetryLimits()
      requires Valid()
      modifies this, writer`packets, writer.out
      ensures Valid() && Arrived(trace) == old(Arrived(trace)) && (old(Settled(trace)) ==> Settled(trace))
      ensures !OverLimits(|pending|, pendingBytes) && IsSuffix(pending, old(pending))
      ensures |pending| <= 10_000 && pendingBytes <= 67_108_864
      ensures |pending| < |old(pending)| ==> LastForced(pending, old(pending))
      ensures old(trace) <= trace
      ensures forall i :: |old(trace)| <= i < |trace| ==> trace[i].Leaves? && trace[i].why == OverLimit
    {
      hide PcapngWriter.Valid, Legal, Queue, Asked, Written, CountersOf, Settled, Arrived;
      while OverLimits(|pending|, pendingBytes)
        invariant Valid() && Arrived(trace) == old(Arrived(trace)) && (old(Settled(trace)) ==> Settled(trace))
        invariant IsSuffix(pending, old(pending))
        invariant |pending| < |old(pending)| ==> LastForced(pending, old(pending))
        invariant old(trace) <= trace
        invariant forall i :: |old(trace)| <= i < |trace| ==> trace[i].Leaves? && trace[i].why == OverLimit
        decreases |pending|
      {
        ghost var done := Evict();
      }
    }

    /**
     The life of the thread: records and time-outs until it is told to stop, then what is left in the
     channel, then a forced flush. The trace is legal, so every record received is written in arrival
     order or counted as an error, annotated from the answers the tracker gave and no others.
     */
    method Run(arrivals: seq<Option<Record>>, leftover: seq<Record>)
      requires Valid() && trace == [] && pending == []
      requires forall i :: 0 <= i < |arrivals| && arrivals[i].Some? ==> GoodRecord(arrivals[i].value)
      requires forall i :: 0 <= i < |leftover| ==> GoodRecord(leftover[i])
      modifies this, writer`packets, writer.out
      ensures Valid() && pending == [] && pendingBytes == 0
      ensures Legal(trace) && answers == Asked(trace)
      ensures Left(trace) == Arrived(trace) == Somes(arrivals) + leftover
      ensures forall i, j :: 0 <= i < j < |trace| && trace[i].Forced() ==> !trace[j].Arrives?
      ensures counters.written + counters.errors == |Left(trace)| && counters.annotated == Commented(Written(trace))
      ensures ParseFile(writer.out.bytes) == Some((writer.header, Written(trace))) && FileHolds(Written(trace), trace)
    {
      hide PcapngWriter.Valid, Legal, Queue, Asked, Written, CountersOf, Settled;
      EmptyIsSettled(trace);
      Serve(arrivals);
      Drain(leftover);
      var now := Now();
      FlushReady(now, true);
      FinalState();
    }

    /** The loop while the thread has not been told to stop: `None` is a time-out. */
    method Serve(arrivals: seq<Option<Record>>)
      requires Valid() && trace == [] && pending == [] && Settled(trace)
      requires forall i :: 0 <= i < |arrivals| && arrivals[i].Some? ==> GoodRecord(arrivals[i].value)
      modifies this, writer`packets, writer.out
      ensures Valid() && Settled(trace) && !OverLimits(|pending|, pendingBytes)
      ensures Arrived(trace) == Somes(arrivals) && Unforced(trace)
    {
      hide PcapngWriter.Valid, Legal, Queue, Asked, Written, CountersOf, Settled, GoodRecord;
      var now := Now();
      var nextScan := now + 50;
      for i := 0 to |arrivals|
        invariant Valid() && Settled(trace) && !OverLimits(|pending|, pendingBytes)
        invariant Arrived(trace) == Somes(arrivals[..i]) && Unforced(trace)
      {
        assert arrivals[..i + 1][..i] == arrivals[..i];
        if arrivals[i].Some? {
          ServeRecord(arrivals[i].value);
        }
        now := Now();
        if now >= nextScan {
          ghost var before := pending;
          FlushReady(now, false);
          SuffixIsSmaller(pending, before);
          now := Now();
          nextScan := now + 50;
        }
      }
      assert arrivals[..|arrivals|] == arrivals;
    }

    /** Take in one record, then keep to the limits. */
    method ServeRecord(record: Record)
      requires Valid() && Settled(trace) && !OverLimits(|pending|, pendingBytes) && Unforced(trace)
      requires GoodRecord(record)
      modifies this, writer`packets, writer.out
      ensures Valid() && Settled(trace) && !OverLimits(|pending|, pendingBytes)
      ensures Arrived(trace) == old(Arrived(trace)) + [record] && Unforced(trace)
    {
      hide PcapngWriter.Valid, Legal, Queue, Asked, Written, CountersOf, Settled, Arrived, TotalLen, GoodRecord;
      var now := Now();
      HandleRecord(record, now);
      assert Unforced(trace);
      EnforceRetryLimits();
    }

    method Drain(leftover: seq<Record>)
      requires Valid() && Settled(trace) && !OverLimits(|pending|, pendingBytes) && Unforced(trace)
      requires forall i :: 0 <= i < |leftover| ==> GoodRecord(leftover[i])
      modifies this, writer`packets, writer.out
      ensures Valid() && Arrived(trace) == old(Arrived(trace)) + leftover && Unforced(trace)
    {
      hide PcapngWriter.Valid, Legal, Queue, Asked, Written, CountersOf, Settled, Arrived, GoodRecord;
      for i := 0 to |leftover|
        invariant Valid() && Settled(trace) && !OverLimits(|pending|, pendingBytes)
        invariant Arrived(trace) == old(Arrived(trace)) + leftover[..i] && Unforced(trace)
      {
        ServeRecord(leftover[i]);
      }
      assert leftover[..|leftover|] == leftover;
    }

    lemma FinalState()
      requires Valid() && pending == []
      ensures Legal(trace) && answers == Asked(trace) && pendingBytes == 0
      ensures Left(trace) == Arrived(trace)
      ensures counters.written + counters.errors == |Left(trace)| && counters.annotated == Commented(Written(trace))
      ensures ParseFile(writer.out.bytes) == Some((writer.header, Written(trace))) && FileHolds(Written(trace), trace)
    {
      hide Allowed, Settled;
      NothingLost(trace);
      WrittenAreHeld(trace);
      CountersMatchFile(trace);
      FileRoundTrip(writer.header, writer.packets);
    }

    method Now() returns (t: int)
    {
      t := *;
    }
  }

  lemma EmptyIsSettled(trace: seq<Turn>)
    ensures Queue(trace) == [] ==> Settled(trace)
  {
  }

  /** Since position `from` one flush at `now` let records go, until the queue was empty or its front had to wait. */
  predicate FlushTurns(trace: seq<Turn>, from: nat, now: int, force: bool) {
    forall i :: from <= i < |trace| ==>
      || (trace[i].Leaves? && trace[i].why.Flush? && trace[i].why.now == now && trace[i].why.forced == force)
      || (trace[i].Waits? && trace[i].now == now && i == |trace| - 1)
  }

  predicate Unforced(trace: seq<Turn>) { forall i :: 0 <= i < |trace| ==> !trace[i].Forced() }

  /** The last lookup was for this record and did not attribute it, and its deadline is still ahead. */
  predicate AskedInVain(r: Record, now: int, answers: seq<Answer>) {
    && answers != [] && answers[|answers| - 1].key == r.key && r.key.Some? && r.deadline > now
    && !AttributedNow(r, answers[|answers| - 1].found)
  }

  function Somes(arrivals: seq<Option<Record>>): seq<Record> {
    if arrivals == [] then []
    else
      var last := arrivals[|arrivals| - 1];
      Somes(arrivals[..|arrivals| - 1]) + if last.Some? then [last.value] else []
  }

  predicate IsSuffix(s: seq<Record>, t: seq<Record>) { |s| <= |t| && s == t[|t| - |s|..] }

  /** With one record more, the queue was still over its limits. */
  predicate LastForced(s: seq<Record>, t: seq<Record>)
    requires |s| < |t|
  {
    OverLimits(|s| + 1, TotalLen(t[|t| - |s| - 1..]))
  }

  lemma {:induction false} SuffixIsSmaller(s: seq<Record>, t: seq<Record>)
    requires IsSuffix(s, t)
    ensures |s| <= |t| && TotalLen(s) <= TotalLen(t)
  {
    if |s| < |t| {
      assert s == t[1..][|t| - 1 - |s|..];
      SuffixIsSmaller(s, t[1..]);
    }
  }
}
