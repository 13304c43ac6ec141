/**
  A clock synchronised with the database. Local readings and database readings are integers
  (nanoseconds); both clocks advance at one rate, so the database's time is the local time plus
  a constant difference.
 */
module SyncClock {
  import opened Common

  /** One successful synchronisation: when it started, what the database said, when the answer arrived, when it was stored. */
  datatype Sync = Sync(start: int, pgTime: int, end: int, stored: int) {
    /** The round trip, measured before the result is stored. */
    function Rtt(): int { end - start }

    /** Half the round trip, rounded toward zero, as integer division of a non-negative duration. */
    function Offset(): int { pgTime - (start + (if Rtt() >= 0 then Rtt() / 2 else -(-Rtt() / 2))) }

    /** The error bound: how long the synchronisation took until its result was stored. */
    function Bound(): int { stored - start }

    /** How much older than its storing the database time is, by the two clocks. */
    function Lag(): int { stored - pgTime }

    /** The clock's answer at local time `at`. */
    function Now(at: int): int { pgTime + (at - stored) }
  }

  /** The database read its time between request and response; `ahead` is database time minus local time. */
  ghost predicate Sound(s: Sync, ahead: int) {
    s.start <= s.end <= s.stored && s.start + ahead <= s.pgTime <= s.end + ahead
  }

  class Clock {
    var offset: int
    var lastRTT: int
    var localStart: int
    var pgTimeAtSync: int
    var syncCount: nat
    var lastSyncFailed: bool
    const maxOffsetDiff: int

    /** The last successful synchronisation, from which every answer is computed. */
    ghost var last: Sync

    ghost predicate Valid()
      reads this
    {
      && syncCount > 0
      && offset == last.Offset() && lastRTT == last.Rtt()
      && localStart == last.stored && pgTimeAtSync == last.pgTime
    }

    /** A new clock is the result of a first synchronisation. */
    constructor (first: Sync, maxOffsetDiff: int)
      requires first.start <= first.end
      ensures Valid() && last == first && syncCount == 1 && !lastSyncFailed && this.maxOffsetDiff == maxOffsetDiff
      ensures lastRTT == first.end - first.start && localStart == first.stored && pgTimeAtSync == first.pgTime
    {
      offset, lastRTT := first.pgTime - (first.start + (first.end - first.start) / 2), first.end - first.start;
      localStart, pgTimeAtSync := first.stored, first.pgTime;
      syncCount, lastSyncFailed := 1, false;
      this.maxOffsetDiff := maxOffsetDiff;
      last := first;
    }

    /** A failed query changes no reading; a successful one replaces them all, and warns of a large change of offset. */
    method Synchronise(start: int, pgTime: Option<int>, end: int, stored: int) returns (warned: bool)
      requires Valid() && start <= end <= stored
      modifies this
      ensures Valid()
      ensures if pgTime.Some? then
                && lastRTT == end - start && localStart == stored && pgTimeAtSync == pgTime.value
                && (var mid := pgTime.value - offset; 0 <= (end - mid) - (mid - start) <= 1)
              else unchanged(`lastRTT) && unchanged(`localStart) && unchanged(`pgTimeAtSync) && unchanged(`offset)
      ensures lastSyncFailed == pgTime.None?
      ensures last == if pgTime.None? then old(last) else Sync(start, pgTime.value, end, stored)
      ensures syncCount == if pgTime.None? then old(syncCount) else old(syncCount) + 1
      ensures warned <==> pgTime.Some? && !(-maxOffsetDiff <= offset - old(offset) <= maxOffsetDiff)
    {
      if pgTime.None? {
        lastSyncFailed := true;
        return false;
      }
      var rtt := end - start;
      var newOffset := pgTime.value - (start + rtt / 2);
      var diff := newOffset - offset;
      warned := (if diff < 0 then -diff else diff) > maxOffsetDiff;
      offset, lastRTT := newOffset, rtt;
      localStart, pgTimeAtSync := stored, pgTime.value;
      syncCount, lastSyncFailed := syncCount + 1, false;
      last := Sync(start, pgTime.value, end, stored);
    }

    method Now(at: int) returns (now: int)
      requires Valid()
      ensures now == last.Now(at)
      ensures now - pgTimeAtSync == at - localStart
    {
      var elapsed := at - localStart;
      now := pgTimeAtSync + elapsed;
    }
  }

  // ---------- Error bounds ----------

  /** The clock is never ahead of the database, and lags by at most the bound. */
  lemma NowWithinBound(s: Sync, ahead: int, at: int)
    requires Sound(s, ahead)
    ensures at + ahead - s.Bound() <= s.Now(at) <= at + ahead
  {
  }

  /** The offset is off by at most half the round trip, rounded up. */
  lemma OffsetWithinHalfTrip(s: Sync, ahead: int)
    requires Sound(s, ahead)
    ensures -((s.end - s.start) / 2) <= s.Offset() - ahead <= (s.end - s.start + 1) / 2
    ensures s.Rtt() == s.end - s.start
  {
  }

  /** Two clusters asked at the same database instant differ by at most the larger of their bounds. */
  lemma ClustersAgree(s: Sync, ahead: int, at: int, s': Sync, ahead': int, at': int)
    requires Sound(s, ahead) && Sound(s', ahead') && at + ahead == at' + ahead'
    ensures s.Now(at) - s'.Now(at') <= s'.Bound() && s'.Now(at') - s.Now(at) <= s.Bound()
  {
    NowWithinBound(s, ahead, at);
    NowWithinBound(s', ahead', at');
  }

  // ---------- Runs ----------

  /** A successful synchronisation, a failed one, or a reading at a local time. */
  datatype Event = Synced(sync: Sync) | SyncFailed(at: int) | Read(at: int) {
    function Time(): int {
      match this
      case Synced(s) => s.stored
      case SyncFailed(at) => at
      case Read(at) => at
    }
  }

  /** The synchronisation in force after `events`: the last successful one. */
  function InForce(first: Sync, events: seq<Event>): Sync {
    if events == [] then first
    else match events[|events| - 1]
         case Synced(s) => s
         case _ => InForce(first, events[..|events| - 1])
  }

  /** What the reading at event `i` returns. */
  function Reading(first: Sync, events: seq<Event>, i: nat): int
    requires i < |events| && events[i].Read?
  {
    InForce(first, events[..i]).Now(events[i].at)
  }

  /** Events in local time order, every synchronisation sound. */
  ghost predicate Timely(first: Sync, events: seq<Event>, ahead: int) {
    && Sound(first, ahead)
    && (forall i :: 0 <= i < |events| ==> first.stored <= events[i].Time())
    && (forall i, j :: 0 <= i < j < |events| ==> events[i].Time() <= events[j].Time())
    && (forall i :: 0 <= i < |events| && events[i].Synced? ==> Sound(events[i].sync, ahead))
  }

  lemma {:induction false} InForceSound(first: Sync, events: seq<Event>, ahead: int, n: nat)
    requires Timely(first, events, ahead) && n <= |events|
    ensures Sound(InForce(first, events[..n]), ahead)
  {
    if n > 0 && !events[n - 1].Synced? {
      InForceSound(first, events, ahead, n - 1);
      assert events[..n][..n - 1] == events[..n - 1];
    }
  }

  lemma {:induction false} InForceUnchanged(first: Sync, events: seq<Event>, i: nat, j: nat)
    requires i <= j <= |events| && forall k :: i <= k < j ==> !events[k].Synced?
    ensures InForce(first, events[..j]) == InForce(first, events[..i])
  {
    if i < j {
      InForceUnchanged(first, events, i, j - 1);
      assert events[..j][..j - 1] == events[..j - 1];
    }
  }

  /**
    Over every run: each reading is at most the database's time and at least that less the bound
    in force; between two synchronisations readings advance exactly with local time; and across
    synchronisations a later reading falls below an earlier one by at most the bound then in force.
   */
  lemma RunReadings(first: Sync, events: seq<Event>, ahead: int, i: nat, j: nat)
    requires Timely(first, events, ahead) && i < j < |events| && events[i].Read? && events[j].Read?
    ensures var bound := InForce(first, events[..j]).Bound();
            && events[j].at + ahead - bound <= Reading(first, events, j) <= events[j].at + ahead
            && Reading(first, events, j) >= Reading(first, events, i) - bound
    ensures (forall k :: i < k < j ==> !events[k].Synced?) ==>
              Reading(first, events, j) - Reading(first, events, i) == events[j].at - events[i].at
  {
    InForceSound(first, events, ahead, i);
    InForceSound(first, events, ahead, j);
    assert events[i].Time() <= events[j].Time();
    NowWithinBound(InForce(first, events[..i]), ahead, events[i].at);
    NowWithinBound(InForce(first, events[..j]), ahead, events[j].at);
    if forall k :: i < k < j ==> !events[k].Synced? {
      InForceUnchanged(first, events, i, j);
    }
  }

  // ---------- Exactly when time never goes backward ----------

  /** The synchronisations among `events`, in order. */
  function SyncsOf(events: seq<Event>): seq<Sync> {
    if events == [] then []
    else
      var e := events[|events| - 1];
      SyncsOf(events[..|events| - 1]) + (if e.Synced? then [e.sync] else [])
  }

  lemma {:induction false} InForceIsLast(first: Sync, events: seq<Event>)
    ensures var all := [first] + SyncsOf(events); InForce(first, events) == all[|all| - 1]
  {
    if events != [] {
      InForceIsLast(first, events[..|events| - 1]);
    }
  }

  lemma {:induction false} SyncsGrow(events: seq<Event>, n: nat)
    requires n <= |events|
    ensures SyncsOf(events[..n]) <= SyncsOf(events)
  {
    if n == |events| {
      assert events[..n] == events;
    } else {
      SyncsGrow(events[..|events| - 1], n);
      assert events[..|events| - 1][..n] == events[..n];
    }
  }

  /** Local times never decrease along `events`. */
  ghost predicate InOrder(events: seq<Event>) {
    forall i, j :: 0 <= i < j < |events| ==> events[i].Time() <= events[j].Time()
  }

  /** However readings are placed among these synchronisations, no later reading is below an earlier one. */
  ghost predicate NeverBackward(first: Sync, syncs: seq<Sync>) {
    forall events: seq<Event>, i: nat, j: nat ::
      InOrder(events) && SyncsOf(events) <= syncs && i < j < |events| && events[i].Read? && events[j].Read? ==>
        Reading(first, events, i) <= Reading(first, events, j)
  }

  /** No synchronisation lags more than the one before it. */
  ghost predicate LagsFall(all: seq<Sync>) {
    forall m, n :: 0 <= m < n < |all| && n == m + 1 ==> all[n].Lag() <= all[m].Lag()
  }

  lemma {:induction false} LagChain(all: seq<Sync>, m: nat, n: nat)
    requires LagsFall(all) && m <= n < |all|
    ensures all[n].Lag() <= all[m].Lag()
  {
    if m < n {
      LagChain(all, m, n - 1);
      assert all[n].Lag() <= all[n - 1].Lag();
    }
  }

  /** A reading comes from the synchronisation that is last so far. */
  lemma ReadingFrom(first: Sync, syncs: seq<Sync>, events: seq<Event>, i: nat) returns (m: nat)
    requires SyncsOf(events) <= syncs && i < |events| && events[i].Read?
    ensures m <= |syncs| && m == |SyncsOf(events[..i])|
    ensures Reading(first, events, i) == ([first] + syncs)[m].Now(events[i].at)
  {
    hide SyncsOf, InForce;
    m := |SyncsOf(events[..i])|;
    SyncsGrow(events, i);
    InForceIsLast(first, events[..i]);
    assert SyncsOf(events[..i]) <= syncs;
  }

  lemma FallingNeverBackward(first: Sync, syncs: seq<Sync>, events: seq<Event>, i: nat, j: nat)
    requires LagsFall([first] + syncs) && InOrder(events) && SyncsOf(events) <= syncs
    requires i < j < |events| && events[i].Read? && events[j].Read?
    ensures Reading(first, events, i) <= Reading(first, events, j)
  {
    hide SyncsOf, Reading, LagsFall;
    var m := ReadingFrom(first, syncs, events, i);
    var n := ReadingFrom(first, syncs, events, j);
    SyncsGrow(events[..j], i);
    assert events[..j][..i] == events[..i];
    LagChain([first] + syncs, m, n);
    assert events[i].Time() <= events[j].Time();
  }

  /** Synchronisations one after the other. */
  function AsEvents(syncs: seq<Sync>): (events: seq<Event>)
    ensures |events| == |syncs| && forall i :: 0 <= i < |syncs| ==> events[i] == Synced(syncs[i])
  {
    seq(|syncs|, i requires 0 <= i < |syncs| => Synced(syncs[i]))
  }

  lemma {:induction false} SyncsOfAsEvents(syncs: seq<Sync>)
    ensures SyncsOf(AsEvents(syncs)) == syncs
  {
    if syncs != [] {
      var before := syncs[..|syncs| - 1];
      SyncsOfAsEvents(before);
      assert AsEvents(syncs)[..|syncs| - 1] == AsEvents(before);
      assert syncs == before + [syncs[|syncs| - 1]];
    }
  }

  /** The readings just before and just after synchronisation `k` is stored. */
  function Around(syncs: seq<Sync>, k: nat): seq<Event>
    requires k < |syncs|
  {
    AsEvents(syncs[..k]) + [Read(syncs[k].stored), Synced(syncs[k]), Read(syncs[k].stored)]
  }

  lemma AroundInOrder(syncs: seq<Sync>, k: nat)
    requires k < |syncs| && forall i, j :: 0 <= i < j < |syncs| ==> syncs[i].stored <= syncs[j].stored
    ensures InOrder(Around(syncs, k))
    ensures |Around(syncs, k)| == k + 3 && Around(syncs, k)[k].Read? && Around(syncs, k)[k + 2].Read?
  {
  }

  lemma SyncsSnoc(events: seq<Event>, e: Event)
    ensures SyncsOf(events + [e]) == SyncsOf(events) + (if e.Synced? then [e.sync] else [])
  {
    assert (events + [e])[..|events|] == events;
  }

  lemma AroundReads(first: Sync, syncs: seq<Sync>, k: nat)
    requires k < |syncs| && |Around(syncs, k)| == k + 3 && Around(syncs, k)[k].Read? && Around(syncs, k)[k + 2].Read?
    ensures SyncsOf(Around(syncs, k)) <= syncs
    ensures Reading(first, Around(syncs, k), k) == ([first] + syncs)[k].Now(syncs[k].stored)
    ensures Reading(first, Around(syncs, k), k + 2) == syncs[k].Now(syncs[k].stored)
  {
    hide SyncsOf, InForce;
    var events, t := Around(syncs, k), syncs[k].stored;
    var head := AsEvents(syncs[..k]);
    var one, two := head + [Read(t)], head + [Read(t)] + [Synced(syncs[k])];
    SyncsOfAsEvents(syncs[..k]);
    SyncsSnoc(head, Read(t));
    SyncsSnoc(one, Synced(syncs[k]));
    SyncsSnoc(two, Read(t));
    assert events == two + [Read(t)] && events[..k] == head && events[..k + 2] == two;
    assert syncs[..k] + [syncs[k]] == syncs[..k + 1];
    InForceIsLast(first, head);
    InForceIsLast(first, two);
  }

  lemma RisingGoesBackward(first: Sync, syncs: seq<Sync>, k: nat)
    requires forall i, j :: 0 <= i < j < |syncs| ==> syncs[i].stored <= syncs[j].stored
    requires k < |syncs| && syncs[k].Lag() > ([first] + syncs)[k].Lag()
    ensures !NeverBackward(first, syncs)
  {
    hide SyncsOf, InOrder, Reading, Around;
    AroundInOrder(syncs, k);
    AroundReads(first, syncs, k);
    assert Reading(first, Around(syncs, k), k) > Reading(first, Around(syncs, k), k + 2);
  }

  /**
    For synchronisations stored in order, readings never go backward, wherever they fall, if and
    only if no synchronisation lags more (was stored longer after the database time it carries)
    than the one before it.
   */
  lemma NeverBackwardExactly(first: Sync, syncs: seq<Sync>)
    requires forall i, j :: 0 <= i < j < |syncs| ==> syncs[i].stored <= syncs[j].stored
    ensures NeverBackward(first, syncs) <==> LagsFall([first] + syncs)
  {
    hide SyncsOf, InOrder, Reading;
    var all := [first] + syncs;
    if LagsFall(all) {
      forall events: seq<Event>, i: nat, j: nat |
        InOrder(events) && SyncsOf(events) <= syncs && i < j < |events| && events[i].Read? && events[j].Read?
        ensures Reading(first, events, i) <= Reading(first, events, j)
      {
        FallingNeverBackward(first, syncs, events, i, j);
      }
    } else {
      var m :| 0 <= m < |all| - 1 && all[m + 1].Lag() > all[m].Lag();
      RisingGoesBackward(first, syncs, m);
    }
  }

  /** So time can go backward: a slow answer after a fast one, both sound, read at one instant. */
  lemma ResyncGoesBackward()
    ensures var fast, slow := Sync(0, 0, 0, 0), Sync(10, 10, 19, 19);
            && Sound(fast, 0) && Sound(slow, 0)
            && Reading(fast, [Read(19), Synced(slow), Read(19)], 2) < Reading(fast, [Read(19), Synced(slow), Read(19)], 0)
  {
    var events := [Read(19), Synced(Sync(10, 10, 19, 19)), Read(19)];
    assert events[..2][1] == events[1] && events[..0] == [];
  }
}
