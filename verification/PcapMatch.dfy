/**
 Offline enrichment of a capture: an index from both orientations of a tuple to the connections seen
 under it, and the search for the connection a packet belongs to. Times are exact reals here.
 */
module PcapMatch {
  import opened Common

  datatype Tuple = Tuple(proto: string, src: string, dst: string)

  function Reverse(t: Tuple): Tuple { Tuple(t.proto, t.dst, t.src) }

  datatype Info = Info(owner: string, firstSeen: Option<real>, lastSeen: Option<real>)

  /** One parsed line of the sidecar file. */
  datatype Record = Record(proto: string, local: string, remote: string, info: Info)

  predicate Usable(r: Record) { r.proto != [] && r.local != [] && r.remote != [] }

  // ----- The index

  function Append(lookup: map<Tuple, seq<Info>>, key: Tuple, info: Info): map<Tuple, seq<Info>> {
    lookup[key := (if key in lookup then lookup[key] else []) + [info]]
  }

  function Get(lookup: map<Tuple, seq<Info>>, key: Tuple): seq<Info> { if key in lookup then lookup[key] else [] }

  /** The infos filed under `key`, in file order; a connection to itself is filed twice. */
  function Filed(records: seq<Option<Record>>, key: Tuple): seq<Info> {
    if records == [] then []
    else
      var front, last := Filed(records[..|records| - 1], key), records[|records| - 1];
      if last.None? || !Usable(last.value) then front
      else
        var r := last.value;
        var there, back := Tuple(r.proto, r.local, r.remote), Tuple(r.proto, r.remote, r.local);
        front + (if key == there then [r.info] else []) + (if key == back then [r.info] else [])
  }

  /** `None` stands for a blank line or invalid JSON. */
  method LoadConnections(records: seq<Option<Record>>) returns (lookup: map<Tuple, seq<Info>>)
    ensures forall key :: Get(lookup, key) == Filed(records, key)
  {
    lookup := map[];
    for n := 0 to |records|
      invariant forall key :: Get(lookup, key) == Filed(records[..n], key)
    {
      assert records[..n + 1][..n] == records[..n];
      if records[n].Some? && Usable(records[n].value) {
        var r := records[n].value;
        lookup := Append(lookup, Tuple(r.proto, r.local, r.remote), r.info);
        lookup := Append(lookup, Tuple(r.proto, r.remote, r.local), r.info);
      }
    }
    assert records[..|records|] == records;
  }

  /** A tuple and its reverse have the same connections, in the same order. */
  lemma {:induction false} IndexIsSymmetric(records: seq<Option<Record>>, key: Tuple)
    ensures Filed(records, key) == Filed(records, Reverse(key))
  {
    if records != [] {
      IndexIsSymmetric(records[..|records| - 1], key);
    }
  }

  /** The records under a tuple: exactly those complete ones that have it in either direction. */
  lemma {:induction false} FiledAreTheirs(records: seq<Option<Record>>, key: Tuple, info: Info)
    ensures info in Filed(records, key) <==>
            exists i :: 0 <= i < |records| && records[i].Some? && records[i].value.info == info &&
              Names(records[i].value, key)
  {
    hide Names;
    if records != [] {
      var n := |records| - 1;
      var front, last := Filed(records[..n], key), records[n];
      FiledAreTheirs(records[..n], key, info);
      assert forall i :: 0 <= i < n ==> records[..n][i] == records[i];
      if last.Some? {
        NamesOrNot(last.value, key);
      }
    }
  }

  /** All three texts are there, and they are the tuple's in this order or with the addresses exchanged. */
  predicate Names(r: Record, key: Tuple) {
    && r.proto != "" && r.local != "" && r.remote != "" && key.proto == r.proto
    && ((key.src == r.local && key.dst == r.remote) || (key.src == r.remote && key.dst == r.local))
  }

  lemma NamesOrNot(r: Record, key: Tuple)
    ensures Names(r, key) <==>
            Usable(r) && (key == Tuple(r.proto, r.local, r.remote) || key == Tuple(r.proto, r.remote, r.local))
  {
  }

  // ----- The search

  predicate Timed(c: Info) { c.firstSeen.Some? && c.lastSeen.Some? }

  predicate InSlack(c: Info, time: real, slack: real)
    requires Timed(c)
  {
    c.firstSeen.value - slack <= time <= c.lastSeen.value + slack
  }

  function Distance(c: Info, time: real): real
    requires Timed(c)
  {
    if time < c.firstSeen.value then c.firstSeen.value - time
    else if time > c.lastSeen.value then time - c.lastSeen.value
    else 0.0
  }

  /** The distance is zero inside the connection's life, else the time to its nearer end. */
  lemma DistanceToLife(c: Info, time: real)
    requires Timed(c)
    ensures c.firstSeen.value <= time <= c.lastSeen.value ==> Distance(c, time) == 0.0
    ensures time < c.firstSeen.value ==> Distance(c, time) == c.firstSeen.value - time
    ensures time > c.lastSeen.value && time >= c.firstSeen.value ==> Distance(c, time) == time - c.lastSeen.value
  {
  }

  predicate Eligible(c: Info, time: real, slack: real) { Timed(c) && InSlack(c, time, slack) }

  /** `k` is the first of the eligible connections that are closest in time. */
  ghost predicate IsBest(cs: seq<Info>, time: real, slack: real, k: nat) {
    && k < |cs| && Eligible(cs[k], time, slack)
    && (forall i :: 0 <= i < |cs| && Eligible(cs[i], time, slack) ==> Distance(cs[k], time) <= Distance(cs[i], time))
    && (forall i :: 0 <= i < k && Eligible(cs[i], time, slack) ==> Distance(cs[k], time) < Distance(cs[i], time))
  }

  /** `k` is the first connection without both times, and no connection is eligible. */
  ghost predicate IsFallback(cs: seq<Info>, time: real, slack: real, k: nat) {
    && k < |cs| && !Timed(cs[k])
    && (forall i :: 0 <= i < |cs| ==> !Eligible(cs[i], time, slack))
    && (forall i :: 0 <= i < k ==> Timed(cs[i]))
  }

  ghost predicate IsAnswer(cs: seq<Info>, time: real, slack: real, answer: Option<nat>) {
    match answer
    case Some(k) => IsBest(cs, time, slack, k) || IsFallback(cs, time, slack, k)
    case None => forall i :: 0 <= i < |cs| ==> Timed(cs[i]) && !Eligible(cs[i], time, slack)
  }

  /** The answer is determined, and there is one exactly when some connection is eligible or untimed. */
  lemma AnswerIsUnique(cs: seq<Info>, time: real, slack: real, a: Option<nat>, b: Option<nat>)
    requires IsAnswer(cs, time, slack, a) && IsAnswer(cs, time, slack, b)
    ensures a == b
    ensures a.Some? <==> exists i :: 0 <= i < |cs| && (Eligible(cs[i], time, slack) || !Timed(cs[i]))
  {
    if a.Some? && b.Some? {
      OneAnswer(cs, time, slack, a.value, b.value);
    }
  }

  lemma OneAnswer(cs: seq<Info>, time: real, slack: real, k: nat, l: nat)
    requires IsAnswer(cs, time, slack, Some(k)) && IsAnswer(cs, time, slack, Some(l))
    ensures k == l
  {
  }

  /** What the search must return for the connections `cs`. */
  ghost predicate Answers(cs: seq<Info>, time: real, slack: real, found: Option<Info>) {
    exists a: Option<nat> :: IsAnswer(cs, time, slack, a) && found == if a.Some? then Some(cs[a.value]) else None
  }

  /** The packet's time lies in the connection's life, widened by the slack on both sides. */
  predicate Within(c: Info, time: real, slack: real) {
    && c.firstSeen.Some? && c.lastSeen.Some?
    && time >= c.firstSeen.value - slack && time <= c.lastSeen.value + slack
  }

  /** No further outside the life of `c` than outside that of `d`. */
  predicate NoFurther(c: Info, d: Info, time: real)
    requires c.firstSeen.Some? && c.lastSeen.Some? && d.firstSeen.Some? && d.lastSeen.Some?
  {
    Distance(c, time) <= Distance(d, time)
  }

  /** The answer in terms of the times alone. */
  ghost predicate FitsBest(cs: seq<Info>, time: real, slack: real, found: Option<Info>) {
    && (found == None <==>
          forall i :: 0 <= i < |cs| ==> cs[i].firstSeen.Some? && cs[i].lastSeen.Some? && !Within(cs[i], time, slack))
    && (found.Some? && Within(found.value, time, slack) ==>
          && found.value in cs
          && forall i :: 0 <= i < |cs| && Within(cs[i], time, slack) ==> NoFurther(found.value, cs[i], time))
    && (found.Some? && !Within(found.value, time, slack) ==>
          && found.value in cs && (found.value.firstSeen == None || found.value.lastSeen == None)
          && forall i :: 0 <= i < |cs| ==> !Within(cs[i], time, slack))
  }

  lemma AnswerFitsBest(cs: seq<Info>, time: real, slack: real, found: Option<Info>)
    requires Answers(cs, time, slack, found)
    ensures FitsBest(cs, time, slack, found)
  {
    hide Distance;
    var a: Option<nat> :| IsAnswer(cs, time, slack, a) && found == if a.Some? then Some(cs[a.value]) else None;
    assert forall i :: 0 <= i < |cs| ==> (Eligible(cs[i], time, slack) <==> Within(cs[i], time, slack));
  }

  method FindMatchingConnection(lookup: map<Tuple, seq<Info>>, packet: Tuple, time: real, slack: real)
      returns (found: Option<Info>)
    ensures Answers(Get(lookup, packet), time, slack, found) && FitsBest(Get(lookup, packet), time, slack, found)
  {
    var connections := Get(lookup, packet);
    var bestScore: Option<real> := None;
    ghost var answer: Option<nat> := None;
    found := None;
    for i := 0 to |connections|
      invariant IsAnswer(connections[..i], time, slack, answer)
      invariant answer.Some? ==> answer.value < i && found == Some(connections[answer.value])
      invariant answer.None? ==> found == None
      invariant bestScore.Some? <==> answer.Some? && Timed(connections[answer.value])
      invariant bestScore.Some? ==> bestScore.value == Distance(connections[answer.value], time)
    {
      var conn := connections[i];
      assert connections[..i + 1] == connections[..i] + [conn];
      if !Timed(conn) {
        if found == None {
          found, answer := Some(conn), Some(i);
        }
      } else if InSlack(conn, time, slack) {
        var score := Distance(conn, time);
        if bestScore.None? || score < bestScore.value {
          bestScore := Some(score);
          found, answer := Some(conn), Some(i);
        }
      }
    }
    assert connections[..|connections|] == connections;
    AnswerFitsBest(connections, time, slack, found);
  }

  /** A packet and its reply at the same time get the same connection, whatever the sidecar file holds. */
  method EnrichBothWays(records: seq<Option<Record>>, packet: Tuple, time: real, slack: real)
    returns (there: Option<Info>, back: Option<Info>)
    ensures there == back
    ensures Answers(Filed(records, packet), time, slack, there)
  {
    var lookup := LoadConnections(records);
    there := FindMatchingConnection(lookup, packet, time, slack);
    back := FindMatchingConnection(lookup, Reverse(packet), time, slack);
    IndexIsSymmetric(records, packet);
    var cs := Filed(records, packet);
    assert Get(lookup, packet) == cs && Get(lookup, Reverse(packet)) == Filed(records, Reverse(packet));
    ghost var a: Option<nat> :| IsAnswer(cs, time, slack, a) && there == if a.Some? then Some(cs[a.value]) else None;
    ghost var b: Option<nat> :| IsAnswer(cs, time, slack, b) && back == if b.Some? then Some(cs[b.value]) else None;
    AnswerIsUnique(cs, time, slack, a, b);
  }
}
