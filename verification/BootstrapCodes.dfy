/** One-time codes for the browser handshake: issued, redeemed at most once, swept when expired. */
module BootstrapCodes {
  import opened Common

  const TTL := 300

  datatype Code = Code(guid: string, issued: int)

  predicate Live(c: Code, now: int) { now - c.issued < TTL }

  function Retain(s: seq<Code>, now: int): seq<Code> {
    if s == [] then []
    else
      var front, last := Retain(s[..|s| - 1], now), s[|s| - 1];
      if Live(last, now) then front + [last] else front
  }

  /** Put the last element in the place of the removed one. */
  function SwapRemove<T>(s: seq<T>, i: nat): seq<T>
    requires i < |s|
  {
    if i == |s| - 1 then s[..i] else s[..i] + [s[|s| - 1]] + s[i + 1..|s| - 1]
  }

  lemma SwapRemoveKeepsTheOthers<T>(s: seq<T>, i: nat)
    requires i < |s|
    ensures multiset(SwapRemove(s, i)) == multiset(s) - multiset{s[i]}
    ensures |SwapRemove(s, i)| == |s| - 1
  {
    if i == |s| - 1 {
      assert s == s[..i] + [s[i]];
    } else {
      assert s == s[..i] + [s[i]] + s[i + 1..|s| - 1] + [s[|s| - 1]];
    }
  }

  lemma {:induction false} RetainKeepsTheLive(s: seq<Code>, now: int)
    ensures forall c :: multiset(Retain(s, now))[c] == if Live(c, now) then multiset(s)[c] else 0
  {
    if s != [] {
      RetainKeepsTheLive(s[..|s| - 1], now);
      assert s == s[..|s| - 1] + [s[|s| - 1]];
    }
  }

  predicate Distinct(s: seq<Code>) { forall i, j :: 0 <= i < j < |s| ==> s[i].guid != s[j].guid }

  lemma {:induction false} RetainMembers(s: seq<Code>, now: int)
    ensures forall c :: c in Retain(s, now) <==> c in s && now - c.issued < 300
    ensures Distinct(s) ==> Distinct(Retain(s, now))
  {
    if s != [] {
      var front, last := s[..|s| - 1], s[|s| - 1];
      RetainMembers(front, now);
      assert s == front + [last];
      if Distinct(s) {
        forall i | 0 <= i < |Retain(front, now)| ensures Retain(front, now)[i].guid != last.guid {
          assert Retain(front, now)[i] in front;
        }
      }
    }
  }

  lemma SwapRemoveMembers(s: seq<Code>, i: nat)
    requires i < |s| && Distinct(s)
    ensures Distinct(SwapRemove(s, i))
    ensures forall c :: c in SwapRemove(s, i) <==> c in s && c != s[i]
  {
    var t, last := SwapRemove(s, i), |s| - 1;
    forall j | 0 <= j < |t| ensures t[j] == s[if j == i then last else j] {
    }
    forall c | c in s && c != s[i] ensures c in t {
      var j :| 0 <= j < |s| && s[j] == c;
      assert t[if j == last then i else j] == c;
    }
  }

  /** The latest of the sweeps so far and one at `now`. */
  function Latest(swept: Option<int>, now: int): int {
    if swept.Some? && swept.value > now then swept.value else now
  }

  /** Expired at the latest sweep. */
  predicate Gone(issued: int, swept: Option<int>) { swept.Some? && swept.value - issued >= TTL }

  /** Exactly the issued codes that were neither redeemed nor swept are pending, each once. */
  ghost predicate Consistent(pending: seq<Code>, issued: map<string, int>, redeemed: set<string>, swept: Option<int>) {
    && Distinct(pending)
    && (forall c :: c in pending ==> c.guid in issued && issued[c.guid] == c.issued)
    && (forall g :: g in issued ==>
          (Code(g, issued[g]) in pending <==> g !in redeemed && !Gone(issued[g], swept)))
    && redeemed <= issued.Keys
  }

  lemma SweepKeepsConsistent(pending: seq<Code>, issued: map<string, int>, redeemed: set<string>, swept: Option<int>,
      now: int)
    requires Consistent(pending, issued, redeemed, swept)
    ensures Consistent(Retain(pending, now), issued, redeemed, Some(Latest(swept, now)))
  {
    RetainMembers(pending, now);
  }

  lemma RedeemKeepsConsistent(kept: seq<Code>, issued: map<string, int>, redeemed: set<string>, swept: Option<int>,
      pos: nat)
    requires Consistent(kept, issued, redeemed, swept) && pos < |kept|
    ensures Consistent(SwapRemove(kept, pos), issued, redeemed + {kept[pos].guid}, swept)
    ensures kept[pos].guid in issued && kept[pos] == Code(kept[pos].guid, issued[kept[pos].guid])
        && kept[pos].guid !in redeemed && !Gone(kept[pos].issued, swept)
  {
    SwapRemoveMembers(kept, pos);
    assert kept[pos] in kept && Code(kept[pos].guid, issued[kept[pos].guid]) == kept[pos];
    forall c | c in kept && c != kept[pos] ensures c.guid != kept[pos].guid {
      var i :| 0 <= i < |kept| && kept[i] == c;
    }
  }

  class CodeBox {
    var pending: seq<Code>
    /** When each code was issued, which were redeemed, and the latest time a sweep used. */
    ghost var issued: map<string, int>
    ghost var redeemed: set<string>
    ghost var swept: Option<int>

    ghost predicate Valid()
      reads this
    {
      Consistent(pending, issued, redeemed, swept)
    }

    constructor ()
      ensures Valid() && issued == map[] && redeemed == {} && swept == None
    {
      pending, issued, redeemed, swept := [], map[], {}, None;
    }

    /** The clock is read while the lock is held, so after every earlier sweep read its own. */
    method Issue(guid: string, now: int)
      requires Valid() && guid !in issued && (swept.Some? ==> now >= swept.value)
      modifies this
      ensures Valid() && issued == old(issued)[guid := now] && redeemed == old(redeemed) && swept == old(swept)
    {
      assert forall i :: 0 <= i < |pending| ==> pending[i] in pending && pending[i].guid in issued;
      pending := pending + [Code(guid, now)];
      issued := issued[guid := now];
      assert pending[|pending| - 1] == Code(guid, now);
      forall g | g in issued
        ensures Code(g, issued[g]) in pending <==> g !in redeemed && !Gone(issued[g], swept)
      {
        if g != guid {
          assert Code(g, issued[g]) in pending <==> Code(g, issued[g]) in old(pending);
        }
      }
    }

    /**
     Succeeds exactly for a code that was issued, not redeemed before, and is younger than the TTL now
     and at every earlier sweep. The clock is read before the lock is taken, so `now` may lie before
     other threads' times. What stays pending is, as a multiset, the live codes but the redeemed one.
     */
    method Redeem(guid: string, now: int) returns (ok: bool)
      requires Valid()
      modifies this
      ensures Valid() && swept == Some(Latest(old(swept), now)) && issued == old(issued)
      ensures ok <==> guid in issued && guid !in old(redeemed) && Latest(old(swept), now) - issued[guid] < 300
      ensures redeemed == if ok then old(redeemed) + {guid} else old(redeemed)
      ensures multiset(pending)
          == multiset(Retain(old(pending), now)) - (if ok then multiset{Code(guid, issued[guid])} else multiset{})
    {
      hide Distinct, Retain;
      var kept := Sweep(pending, now);
      SweepKeepsConsistent(pending, issued, redeemed, swept, now);
      swept := Some(Latest(swept, now));
      var pos := Position(kept, guid);
      ok := pos < |kept|;
      if ok {
        SwapRemoveKeepsTheOthers(kept, pos);
        RedeemKeepsConsistent(kept, issued, redeemed, swept, pos);
        pending := SwapRemove(kept, pos);
        redeemed := redeemed + {guid};
      } else {
        pending := kept;
      }
    }

    /** The first position of the code, or the length if there is none. */
    method Position(codes: seq<Code>, guid: string) returns (pos: nat)
      ensures pos <= |codes| && (pos < |codes| ==> codes[pos].guid == guid)
      ensures pos == |codes| ==> forall c :: c in codes ==> c.guid != guid
    {
      pos := 0;
      while pos < |codes| && codes[pos].guid != guid
        invariant 0 <= pos <= |codes|
        invariant forall i :: 0 <= i < pos ==> codes[i].guid != guid
      {
        pos := pos + 1;
      }
    }

    method Sweep(codes: seq<Code>, now: int) returns (kept: seq<Code>)
      ensures kept == Retain(codes, now)
    {
      kept := [];
      for i := 0 to |codes|
        invariant kept == Retain(codes[..i], now)
      {
        assert codes[..i + 1][..i] == codes[..i];
        if Live(codes[i], now) {
          kept := kept + [codes[i]];
        }
      }
      assert codes[..|codes|] == codes;
    }
  }
}
