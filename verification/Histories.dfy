/** Sliding histories: the rolling interface window and the rate rings of one connection. */
module Histories {
  import opened Common

  const WINDOW_SECONDS := 60

  datatype Sample = Sample(timestamp: int, rx: nat, tx: nat)

  /** A sample from the future counts as age zero. */
  function Age(now: int, s: Sample): nat { if now < s.timestamp then 0 else now - s.timestamp }

  predicate Expired(now: int, s: Sample) { Age(now, s) >= WINDOW_SECONDS }

  predicate Monotone(seen: seq<Sample>) {
    forall i, j :: 0 <= i < j < |seen| ==> seen[i].timestamp <= seen[j].timestamp
  }

  /** `k` is the newest sample at least 60 s old as seen at `now`, or the very first one if none is. */
  predicate IsWindowStart(seen: seq<Sample>, now: int, k: nat) {
    && k < |seen|
    && (k > 0 ==> Expired(now, seen[k]))
    && forall j :: k < j < |seen| ==> !Expired(now, seen[j])
  }

  /** The window start is determined by the samples. */
  lemma WindowStartIsUnique(seen: seq<Sample>, now: int, k: nat, l: nat)
    requires IsWindowStart(seen, now, k) && IsWindowStart(seen, now, l)
    ensures k == l
  {
    assert forall j :: 0 <= j < |seen| && j > k ==> !Expired(now, seen[j]);
  }

  class InterfaceWindow {
    var history: seq<Sample>
    ghost var seen: seq<Sample>

    /** The history is a suffix of what was seen since the last clear, and starts where it should. */
    ghost predicate Valid()
      reads this
    {
      && |history| <= |seen| && history == seen[|seen| - |history|..]
      && (seen != [] ==> history != [])
      && (seen != [] && Monotone(seen) ==> IsWindowStart(seen, seen[|seen| - 1].timestamp, |seen| - |history|))
    }

    constructor ()
      ensures Valid() && seen == []
    {
      history, seen := [], [];
    }

    method Clear()
      modifies this
      ensures Valid() && seen == [] && history == []
    {
      history, seen := [], [];
    }

    /** One poll; the result is the sample the traffic of the window is measured from. */
    method Poll(stat: Sample) returns (oldest: Sample)
      requires Valid()
      modifies this
      ensures Valid() && seen == old(seen) + [stat] && history != [] && oldest == history[0]
      ensures StartsAt(seen, |seen| - |history|, |old(seen)| - |old(history)|)
    {
      hide Monotone, IsWindowStart, Expired, AllOld, StartsAt;
      ghost var all, first := seen + [stat], |seen| - |history|;
      OldStaysOld(seen, stat, first);
      SuffixAppend(seen, stat, first);
      NoneOld(all, first, stat.timestamp);
      seen := all;
      history := history + [stat];
      ghost var k := DropOld(all, first, stat.timestamp);
      oldest := history[0];
      StartFound(all, k);
      StartOnSeconds(all, k, first);
    }

    /** Drop samples from the front while the second one is a minute old. */
    method DropOld(ghost all: seq<Sample>, ghost first: nat, now: int) returns (ghost k: nat)
      requires first < |all| && history == all[first..] && AllOld(all, first, first, now)
      requires Monotone(all) && first > 0 ==> Expired(now, all[first])
      modifies this`history
      ensures first <= k < |all| && history == all[k..] && AllOld(all, first, k, now)
      ensures Monotone(all) && k > 0 ==> Expired(now, all[k])
      ensures |all| - k <= 2 || !Expired(now, all[k + 1])
    {
      hide Monotone, Expired, AllOld;
      k := first;
      while |history| > 2 && Expired(now, history[1])
        invariant first <= k < |all| && history == all[k..] && AllOld(all, first, k, now)
        invariant Monotone(all) && k > 0 ==> Expired(now, all[k])
        decreases |history|
      {
        assert history[1] == all[k + 1];
        OneMoreOld(all, first, k, now);
        SuffixDrop(all, k);
        history := history[1..];
        k := k + 1;
      }
      assert |all| - k > 2 ==> history[1] == all[k + 1];
    }
  }

  /** The samples after `first` up to `k` are at least a minute old. */
  ghost predicate AllOld(seen: seq<Sample>, first: nat, k: nat, now: int) {
    k < |seen| && forall i :: first < i <= k ==> now - seen[i].timestamp >= 60
  }

  lemma NoneOld(seen: seq<Sample>, first: nat, now: int)
    requires first < |seen|
    ensures AllOld(seen, first, first, now)
  {
  }

  lemma OneMoreOld(seen: seq<Sample>, first: nat, k: nat, now: int)
    requires AllOld(seen, first, k, now) && k + 1 < |seen| && Expired(now, seen[k + 1])
    ensures AllOld(seen, first, k + 1, now)
  {
    ExpiredOnSeconds(now, seen[k + 1]);
  }

  /** A sample counts as old when it was taken a minute before, and never when it is from the future. */
  lemma ExpiredOnSeconds(now: int, s: Sample)
    ensures Expired(now, s) <==> now - s.timestamp >= 60
  {
  }

  /** Where a poll stops, in seconds. */
  lemma StartOnSeconds(seen: seq<Sample>, k: nat, first: nat)
    requires k < |seen| && AllOld(seen, first, k, seen[|seen| - 1].timestamp)
    requires Monotone(seen) ==> IsWindowStart(seen, seen[|seen| - 1].timestamp, k)
    requires |seen| - k <= 2 || !Expired(seen[|seen| - 1].timestamp, seen[k + 1])
    ensures StartsAt(seen, k, first)
  {
    var now := seen[|seen| - 1].timestamp;
    forall i | 0 <= i < |seen| ensures Expired(now, seen[i]) <==> now - seen[i].timestamp >= 60 {
      ExpiredOnSeconds(now, seen[i]);
    }
  }

  /**
   Position `k` is where the window starts after the last poll, in seconds: what was dropped was followed
   by old samples only, the second sample kept is young unless it is the last one; and if times never
   decrease, all samples after the start are young and an earlier one was dropped for an old one.
   */
  ghost predicate StartsAt(seen: seq<Sample>, k: nat, first: nat)
    requires k < |seen|
  {
    var now := seen[|seen| - 1].timestamp;
    && (forall i :: first < i <= k ==> now - seen[i].timestamp >= 60)
    && (|seen| - k <= 2 || now - seen[k + 1].timestamp < 60)
    && (Monotone(seen) && k > 0 ==> now - seen[k].timestamp >= 60)
    && (Monotone(seen) ==> forall j :: k < j < |seen| ==> now - seen[j].timestamp < 60)
  }

  lemma SuffixAppend(seen: seq<Sample>, stat: Sample, k: nat)
    requires k <= |seen|
    ensures seen[k..] + [stat] == (seen + [stat])[k..]
  {
  }

  lemma SuffixDrop(all: seq<Sample>, k: nat)
    requires k < |all|
    ensures all[k..][1..] == all[k + 1..]
  {
  }

  /** A window start that was old stays old when time moves on. */
  lemma OldStaysOld(seen: seq<Sample>, stat: Sample, k: nat)
    requires k <= |seen|
    requires seen != [] && Monotone(seen) ==> IsWindowStart(seen, seen[|seen| - 1].timestamp, k)
    ensures Monotone(seen + [stat]) && 0 < k < |seen| ==> Expired(stat.timestamp, seen[k])
  {
    var all := seen + [stat];
    if Monotone(all) {
      forall i, j | 0 <= i < j < |seen| ensures seen[i].timestamp <= seen[j].timestamp {
        assert all[i].timestamp <= all[j].timestamp;
      }
      assert forall i :: 0 <= i < |seen| ==> all[i] == seen[i] && all[i].timestamp <= all[|seen|].timestamp;
    }
  }

  /** Where the loop stops, the samples after the front are all too young. */
  lemma StartFound(seen: seq<Sample>, k: nat)
    requires k < |seen|
    requires Monotone(seen) && k > 0 ==> Expired(seen[|seen| - 1].timestamp, seen[k])
    requires |seen| - k <= 2 || !Expired(seen[|seen| - 1].timestamp, seen[k + 1])
    ensures Monotone(seen) ==> IsWindowStart(seen, seen[|seen| - 1].timestamp, k)
  {
    if Monotone(seen) {
      var now := seen[|seen| - 1].timestamp;
      forall j | k < j < |seen| ensures !Expired(now, seen[j]) {
        assert seen[k + 1].timestamp <= seen[j].timestamp || j == k + 1;
      }
    }
  }

  datatype Push = Push(createdAt: int, rx: nat, tx: nat)

  /** The longest suffix of pushes that share one connection generation. */
  function LastGeneration(pushes: seq<Push>): seq<Push> {
    if |pushes| <= 1 then pushes
    else
      var n := |pushes| - 1;
      if pushes[n - 1].createdAt == pushes[n].createdAt then LastGeneration(pushes[..n]) + [pushes[n]]
      else [pushes[n]]
  }

  /** `s` is the longest suffix of the pushes whose creation times are all that of the last push. */
  predicate IsLongest(pushes: seq<Push>, s: seq<Push>) {
    var k := |pushes| - |s|;
    && k >= 0 && s == pushes[k..] && (pushes != [] ==> s != [])
    && (forall i :: k <= i < |pushes| ==> pushes[i].createdAt == pushes[|pushes| - 1].createdAt)
    && (k > 0 ==> pushes[k - 1].createdAt != pushes[|pushes| - 1].createdAt)
  }

  lemma OneMoreLongest(pushes: seq<Push>, s: seq<Push>, p: Push)
    requires pushes != [] && IsLongest(pushes, s)
    ensures IsLongest(pushes + [p], if pushes[|pushes| - 1].createdAt == p.createdAt then s + [p] else [p])
  {
    var all, k := pushes + [p], |pushes| - |s|;
    if pushes[|pushes| - 1].createdAt == p.createdAt {
      assert all[k..] == s + [p];
    } else {
      assert all[|pushes|..] == [p];
    }
  }

  lemma {:induction false} LastGenerationIsLongest(pushes: seq<Push>)
    ensures IsLongest(pushes, LastGeneration(pushes))
  {
    hide LastGeneration, IsLongest;
    if |pushes| > 1 {
      var n := |pushes| - 1;
      var before := pushes[..n];
      LastGenerationIsLongest(before);
      OneMoreLongest(before, LastGeneration(before), pushes[n]);
      OneMoreGeneration(before, pushes[n]);
      assert pushes == before + [pushes[n]];
    } else {
      ShortIsLongest(pushes);
    }
  }

  lemma ShortIsLongest(pushes: seq<Push>)
    requires |pushes| <= 1
    ensures IsLongest(pushes, LastGeneration(pushes))
  {
    assert LastGeneration(pushes) == pushes;
    WholeIsLongest(pushes);
  }

  lemma WholeIsLongest(pushes: seq<Push>)
    requires |pushes| <= 1
    ensures IsLongest(pushes, pushes)
  {
    if pushes == [] {
      assert pushes[0..] == [];
    } else {
      assert pushes[0..] == [pushes[0]];
    }
  }

  lemma OneMoreGeneration(pushes: seq<Push>, p: Push)
    requires pushes != []
    ensures LastGeneration(pushes + [p]) ==
            if pushes[|pushes| - 1].createdAt == p.createdAt then LastGeneration(pushes) + [p] else [p]
  {
    assert (pushes + [p])[..|pushes|] == pushes;
  }

  function LastOf<T>(s: seq<T>, n: nat): seq<T> { if |s| <= n then s else s[|s| - n..] }

  function Rx(pushes: seq<Push>): (r: seq<nat>)
    ensures |r| == |pushes|
  {
    seq(|pushes|, i requires 0 <= i < |pushes| => pushes[i].rx)
  }

  function Tx(pushes: seq<Push>): (r: seq<nat>)
    ensures |r| == |pushes|
  {
    seq(|pushes|, i requires 0 <= i < |pushes| => pushes[i].tx)
  }

  /** A ring never shrinks below one sample, so capacity 0 behaves like capacity 1. */
  function Slots(cap: nat): nat { if cap == 0 then 1 else cap }

  class ConnRateHistory {
    var rx: seq<nat>
    var tx: seq<nat>
    var generation: Option<int>
    ghost var pushes: seq<Push>

    ghost predicate Valid(cap: nat)
      reads this
    {
      && rx == LastOf(Rx(LastGeneration(pushes)), Slots(cap))
      && tx == LastOf(Tx(LastGeneration(pushes)), Slots(cap))
      && |rx| == |tx|
      && generation == if pushes == [] then None else Some(pushes[|pushes| - 1].createdAt)
    }

    constructor (cap: nat)
      ensures Valid(cap) && pushes == []
    {
      rx, tx, generation, pushes := [], [], None, [];
    }

    /** After any pushes with one capacity, both rings hold the last samples of the current generation. */
    method PushForGeneration(createdAt: int, rxRate: nat, txRate: nat, cap: nat)
      requires Valid(cap)
      modifies this
      ensures Valid(cap) && pushes == old(pushes) + [Push(createdAt, rxRate, txRate)]
    {
      hide LastGeneration, Rx, Tx, LastOf, Slots;
      RingOfNothing(Slots(cap));
      ghost var p := Push(createdAt, rxRate, txRate);
      GenerationGrows(pushes, p);
      if generation != Some(createdAt) {
        rx, tx, generation := [], [], Some(createdAt);
      }
      ghost var before := if pushes != [] && pushes[|pushes| - 1].createdAt == createdAt
          then LastGeneration(pushes) else [];
      RingPush(Rx(before), rxRate, cap);
      RingPush(Tx(before), txRate, cap);
      if |rx| >= cap {
        rx := if rx == [] then [] else rx[1..];
      }
      if |tx| >= cap {
        tx := if tx == [] then [] else tx[1..];
      }
      rx := rx + [rxRate];
      tx := tx + [txRate];
      pushes := pushes + [p];
    }
  }

  lemma RingOfNothing(n: nat)
    ensures LastOf<nat>([], n) == []
  {
  }

  lemma GenerationGrows(pushes: seq<Push>, p: Push)
    ensures var before := if pushes != [] && pushes[|pushes| - 1].createdAt == p.createdAt
                then LastGeneration(pushes) else [];
            && LastGeneration(pushes + [p]) == before + [p]
            && Rx(before + [p]) == Rx(before) + [p.rx]
            && Tx(before + [p]) == Tx(before) + [p.tx]
  {
    assert (pushes + [p])[..|pushes|] == pushes;
  }

  /** Drop the front when full, then append: the last samples of the extended sequence. */
  lemma RingPush(all: seq<nat>, v: nat, cap: nat)
    ensures var ring := LastOf(all, Slots(cap));
            (if |ring| >= cap && ring != [] then ring[1..] else ring) + [v] == LastOf(all + [v], Slots(cap))
  {
  }
}
