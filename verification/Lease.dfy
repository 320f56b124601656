/** The timing of lease renewal in the worker's poll loop: `desktop/lifecycle.py:843-925`. */
module Lease {
  /** The clock readings of one turn of the loop, all on one monotonic scale: the turn begins,
      `now()` is read, the interval since the last heartbeat is checked, the time after a
      heartbeat is noted, and the turn ends with a sleep. */
  datatype Clock = Clock(begin: real, now: real, checked: real, beaten: real, end: real)

  /** A turn renews the lease when a third of it has passed since the last heartbeat. */
  predicate Due(c: Clock, lastHeartbeat: real, lease: real) {
    c.checked - lastHeartbeat >= lease / 3.0
  }

  function LastHeartbeat(clocks: seq<Clock>, start: real, lease: real): real {
    if |clocks| == 0 then start
    else
      var c := clocks[|clocks| - 1];
      var before := LastHeartbeat(clocks[..|clocks| - 1], start, lease);
      if Due(c, before, lease) then c.beaten else before
  }

  /** The time stamps of the renewals, in order. */
  function Renewals(clocks: seq<Clock>, start: real, lease: real): seq<real> {
    if |clocks| == 0 then []
    else
      var c, front := clocks[|clocks| - 1], clocks[..|clocks| - 1];
      Renewals(front, start, lease)
      + (if Due(c, LastHeartbeat(front, start, lease), lease) then [c.now] else [])
  }

  // ----- how long the lease lasts -----

  /** The lease runs `lease` seconds from the latest renewal's stamp, or from the claim. */
  function LeaseUntil(claimed: real, renewals: seq<real>, lease: real): real {
    (if |renewals| == 0 then claimed else renewals[|renewals| - 1]) + lease
  }

  /** The turns follow each other from `start` on, the readings of each are in order, it sleeps for
      `poll` at least, and none lasts longer than `d`. */
  ghost predicate Paced(clocks: seq<Clock>, start: real, poll: real, d: real) {
    && (|clocks| > 0 ==> clocks[0].begin == start)
    && (forall i :: 0 <= i < |clocks| - 1 ==> clocks[i + 1].begin == clocks[i].end)
    && (forall i :: 0 <= i < |clocks| ==> Turn(clocks[i], poll, d))
  }

  predicate Turn(c: Clock, poll: real, d: real) {
    c.begin <= c.now <= c.checked <= c.beaten <= c.end - poll && c.end - c.begin <= d
  }

  /** Every turn is over before the lease held at its beginning runs out. */
  ghost predicate NeverLapses(clocks: seq<Clock>, claimed: real, start: real, lease: real) {
    forall j :: 0 <= j < |clocks| ==>
      clocks[j].end < LeaseUntil(claimed, Renewals(clocks[..j], start, lease), lease)
  }

  function EndTime(clocks: seq<Clock>, start: real): real {
    if |clocks| == 0 then start else clocks[|clocks| - 1].end
  }

  lemma PacedFront(clocks: seq<Clock>, start: real, poll: real, d: real)
    requires Paced(clocks, start, poll, d) && |clocks| > 0
    ensures Paced(clocks[..|clocks| - 1], start, poll, d)
    ensures clocks[|clocks| - 1].begin == EndTime(clocks[..|clocks| - 1], start)
  {
  }

  /** The loop is never more than a third of the lease and one turn past its last heartbeat, and a
      heartbeat comes at most one turn without its sleep after the stamp it renews with. */
  lemma {:induction false} HeartbeatBounds(clocks: seq<Clock>, start: real, lease: real, poll: real, d: real)
    requires lease > 0.0 && 0.0 <= poll <= d && Paced(clocks, start, poll, d)
    ensures var h := LastHeartbeat(clocks, start, lease);
      && EndTime(clocks, start) < h + lease / 3.0 + d
      && (var rs := Renewals(clocks, start, lease);
          if |rs| == 0 then h == start else h <= rs[|rs| - 1] + d - poll)
    decreases |clocks|
  {
    if |clocks| > 0 {
      PacedFront(clocks, start, poll, d);
      HeartbeatBounds(clocks[..|clocks| - 1], start, lease, poll, d);
    }
  }

  // ----- how many turns pass without a renewal -----

  /** `x`, `n` times over. */
  function Times(n: nat, x: real): real {
    if n == 0 then 0.0 else Times(n - 1, x) + x
  }

  lemma {:induction false} TimesIs(n: nat, x: real)
    ensures Times(n, x) == n as real * x
  {
    if n > 0 { TimesIs(n - 1, x); }
  }

  /** The number of turns since the last renewal. */
  function Since(clocks: seq<Clock>, start: real, lease: real): nat {
    if |clocks| == 0 then 0
    else
      var c, front := clocks[|clocks| - 1], clocks[..|clocks| - 1];
      if Due(c, LastHeartbeat(front, start, lease), lease) then 0 else Since(front, start, lease) + 1
  }

  /** `most` is the largest number of sleeps that fit into less than a third of the lease. */
  ghost predicate Fits(most: nat, lease: real, poll: real) {
    Times(most, poll) < lease / 3.0 <= Times(most + 1, poll)
  }

  lemma {:induction false} TimesMonotone(m: nat, n: nat, x: real)
    requires m <= n && x >= 0.0
    ensures Times(m, x) <= Times(n, x)
  {
    if m < n { TimesMonotone(m, n - 1, x); }
  }

  /** Each turn since the last renewal takes between `poll` and `d`, and the last of them began before
      a third of the lease had passed. */
  lemma {:induction false} SinceBounds(clocks: seq<Clock>, start: real, lease: real, poll: real, d: real)
    requires lease > 0.0 && 0.0 < poll <= d && Paced(clocks, start, poll, d)
    ensures var m, rs := Since(clocks, start, lease), Renewals(clocks, start, lease);
      var h, end := LastHeartbeat(clocks, start, lease), EndTime(clocks, start);
      if |rs| == 0 then
        && h == start && end >= start + Times(m, poll) && end <= start + Times(m, d)
        && (m > 0 ==> Times(m - 1, poll) < lease / 3.0)
      else
        && end >= h + Times(m + 1, poll) && end <= rs[|rs| - 1] + Times(m + 1, d)
        && Times(m, poll) < lease / 3.0
    decreases |clocks|
  {
    if |clocks| > 0 {
      PacedFront(clocks, start, poll, d);
      SinceBounds(clocks[..|clocks| - 1], start, lease, poll, d);
    }
  }

  lemma FewTurns(m: nat, most: nat, lease: real, poll: real, d: real)
    requires 0.0 < poll && 0.0 <= d && Fits(most, lease, poll) && Times(m, poll) < lease / 3.0
    ensures m <= most && Times(m, d) <= Times(most, d)
  {
    if m > most { TimesMonotone(most + 1, m, poll); }
    TimesMonotone(m, most, d);
  }

  // ----- when the lease is safe -----

  /** The number of sleeps that fit into less than a third of the lease. */
  function MostSleeps(lease: real, poll: real): (most: nat)
    requires lease > 0.0 && poll > 0.0
    ensures Fits(most, lease, poll)
  {
    var q := lease / 3.0 / poll;
    var whole := q.Floor;
    FloorFits(lease / 3.0, poll, whole);
    if whole as real == q then whole - 1 else whole
  }

  lemma FloorFits(time: real, poll: real, whole: int)
    requires time > 0.0 && poll > 0.0 && whole == (time / poll).Floor
    ensures whole >= 0 && Times(whole, poll) <= time < Times(whole + 1, poll)
    ensures whole as real == time / poll <==> Times(whole, poll) == time
  {
    var q := time / poll;
    assert q * poll == time;
    MulOrder(0.0, q, poll);
    MulOrder(whole as real, q, poll);
    var next := (whole + 1) as real;
    assert q < next;
    MulOrder(q, next, poll);
    assert time < next * poll;
    TimesIs(whole, poll);
    TimesIs(whole + 1, poll);
    assert Times(whole + 1, poll) == next * poll;
  }

  lemma MulOrder(a: real, b: real, x: real)
    requires x > 0.0
    ensures a < b <==> a * x < b * x
    ensures a == b <==> a * x == b * x
  {
    assert (b - a) * x == b * x - a * x;
  }

  /** Turns of at most `d` are short enough, either for a slow turn after a third of the lease
      has almost passed, or for as many turns as can pass at all without a renewal; both before the
      first renewal and after any other. */
  predicate Safe(claimed: real, start: real, lease: real, poll: real, d: real)
    requires lease > 0.0 && poll > 0.0
  {
    var most := MostSleeps(lease, poll);
    && (9.0 * d - 3.0 * poll <= 2.0 * lease || Times(most + 2, d) < lease)
    && (3.0 * (start - claimed) + 6.0 * d <= 2.0 * lease || start - claimed + Times(most + 2, d) < lease)
  }

  /** From any renewal on, every turn up to and including the one that completes the next
      renewal is over within lease/3 + 3d - poll of the renewal's stamp. */
  lemma NextRenewalSoon(clocks: seq<Clock>, start: real, lease: real, poll: real, d: real, j: nat)
    requires lease > 0.0 && 0.0 < poll <= d && Paced(clocks, start, poll, d) && j < |clocks|
    ensures var rs := Renewals(clocks[..j], start, lease);
      && (|rs| > 0 ==> clocks[j].end < rs[|rs| - 1] + lease / 3.0 + 3.0 * d - poll)
      && (|rs| == 0 ==> clocks[j].end < start + lease / 3.0 + 2.0 * d)
  {
    BeginsAtEnd(clocks, start, poll, d, j);
    HeartbeatBounds(clocks[..j], start, lease, poll, d);
  }

  lemma BeginsAtEnd(clocks: seq<Clock>, start: real, poll: real, d: real, j: nat)
    requires Paced(clocks, start, poll, d) && j < |clocks|
    ensures Paced(clocks[..j], start, poll, d)
    ensures clocks[j].begin == EndTime(clocks[..j], start) && clocks[j].end <= EndTime(clocks[..j], start) + d
  {
  }

  /** Nor does it take more turns than sleeps fit into a third of the lease, and two. */
  lemma NextRenewalWithin(clocks: seq<Clock>, start: real, lease: real, poll: real, d: real, j: nat)
    requires lease > 0.0 && 0.0 < poll <= d && Paced(clocks, start, poll, d) && j < |clocks|
    ensures var rs := Renewals(clocks[..j], start, lease);
      clocks[j].end <= (if |rs| > 0 then rs[|rs| - 1] else start) + Times(MostSleeps(lease, poll) + 2, d)
  {
    BeginsAtEnd(clocks, start, poll, d, j);
    SinceBounds(clocks[..j], start, lease, poll, d);
    var m, most := Since(clocks[..j], start, lease), MostSleeps(lease, poll);
    if |Renewals(clocks[..j], start, lease)| > 0 {
      FewTurns(m, most, lease, poll, d);
    } else if m > 0 {
      FewTurns(m - 1, most, lease, poll, d);
    } else {
      TimesMonotone(0, most, d);
    }
  }

  lemma SafeTurnsKeepLease(clocks: seq<Clock>, claimed: real, start: real, lease: real, poll: real, d: real)
    requires lease > 0.0 && 0.0 < poll <= d && Paced(clocks, start, poll, d)
    requires Safe(claimed, start, lease, poll, d)
    ensures NeverLapses(clocks, claimed, start, lease)
  {
    forall j | 0 <= j < |clocks|
      ensures clocks[j].end < LeaseUntil(claimed, Renewals(clocks[..j], start, lease), lease)
    {
      NextRenewalSoon(clocks, start, lease, poll, d, j);
      NextRenewalWithin(clocks, start, lease, poll, d, j);
    }
  }

  // ----- the bound is exact -----

  lemma NotDueStep(clocks: seq<Clock>, c: Clock, start: real, lease: real)
    requires !Due(c, LastHeartbeat(clocks, start, lease), lease)
    ensures LastHeartbeat(clocks + [c], start, lease) == LastHeartbeat(clocks, start, lease)
    ensures Renewals(clocks + [c], start, lease) == Renewals(clocks, start, lease)
  {
    assert (clocks + [c])[..|clocks|] == clocks;
  }

  lemma DueStep(clocks: seq<Clock>, c: Clock, start: real, lease: real)
    requires Due(c, LastHeartbeat(clocks, start, lease), lease)
    ensures LastHeartbeat(clocks + [c], start, lease) == c.beaten
    ensures Renewals(clocks + [c], start, lease) == Renewals(clocks, start, lease) + [c.now]
  {
    assert (clocks + [c])[..|clocks|] == clocks;
  }

  lemma PacedSnoc(clocks: seq<Clock>, c: Clock, start: real, poll: real, d: real)
    requires Paced(clocks, start, poll, d) && c.begin == EndTime(clocks, start) && Turn(c, poll, d)
    ensures Paced(clocks + [c], start, poll, d) && EndTime(clocks + [c], start) == c.end
  {
  }

  /** A turn that reads its clocks at once and then sleeps. */
  function LazyTurn(begin: real, length: real): Clock {
    Clock(begin, begin, begin, begin, begin + length)
  }

  /** `n` turns that renew nothing can fill any time between `n` sleeps and `n` longest turns, if it is
      over before the next renewal is due. */
  lemma {:induction false} Fill(cs: seq<Clock>, n: nat, time: real, start: real, lease: real, poll: real, d: real)
    returns (more: seq<Clock>)
    requires 0.0 < poll <= d && Paced(cs, start, poll, d)
    requires Times(n, poll) <= time <= Times(n, d)
    requires EndTime(cs, start) + time < LastHeartbeat(cs, start, lease) + lease / 3.0
    ensures Paced(more, start, poll, d) && EndTime(more, start) == EndTime(cs, start) + time
    ensures LastHeartbeat(more, start, lease) == LastHeartbeat(cs, start, lease)
    ensures Renewals(more, start, lease) == Renewals(cs, start, lease)
    decreases n
  {
    if n == 0 {
      more := cs;
    } else {
      TimesGrow(n - 1, poll, d);
      var last := if time - Times(n - 1, d) > poll then time - Times(n - 1, d) else poll;
      more := Fill(cs, n - 1, time - last, start, lease, poll, d);
      var c := LazyTurn(EndTime(more, start), last);
      PacedSnoc(more, c, start, poll, d);
      NotDueStep(more, c, start, lease);
      more := more + [c];
    }
  }

  ghost predicate SafeForAllSchedules(claimed: real, start: real, lease: real, poll: real, d: real) {
    forall clocks :: Paced(clocks, start, poll, d) ==> NeverLapses(clocks, claimed, start, lease)
  }

  /** One more turn of full length outlasts a lease that holds no longer than that. */
  lemma LastTurnLapses(cs: seq<Clock>, claimed: real, start: real, lease: real, poll: real, d: real)
    requires 0.0 < poll <= d && Paced(cs, start, poll, d)
    requires EndTime(cs, start) + d >= LeaseUntil(claimed, Renewals(cs, start, lease), lease)
    ensures !SafeForAllSchedules(claimed, start, lease, poll, d)
  {
    var c := LazyTurn(EndTime(cs, start), d);
    PacedSnoc(cs, c, start, poll, d);
    var all := cs + [c];
    assert all[..|cs|] == cs && all[|cs|] == c;
    assert Paced(all, start, poll, d) && !NeverLapses(all, claimed, start, lease);
  }

  /** After `n` more turns a full one just misses the renewal and the next one overruns the lease. */
  lemma OverrunAfter(
      cs: seq<Clock>, n: nat, time: real, claimed: real, start: real, lease: real, poll: real, d: real)
    requires 0.0 < poll <= d && Paced(cs, start, poll, d)
    requires Times(n, poll) <= time <= Times(n, d)
    requires EndTime(cs, start) + time < LastHeartbeat(cs, start, lease) + lease / 3.0
    requires EndTime(cs, start) + time + 2.0 * d >= LeaseUntil(claimed, Renewals(cs, start, lease), lease)
    ensures !SafeForAllSchedules(claimed, start, lease, poll, d)
  {
    var more := Fill(cs, n, time, start, lease, poll, d);
    var missed := LazyTurn(EndTime(more, start), d);
    PacedSnoc(more, missed, start, poll, d);
    NotDueStep(more, missed, start, lease);
    LastTurnLapses(more + [missed], claimed, start, lease, poll, d);
  }

  /** A loop entered late lets the lease lapse before its first renewal. */
  lemma LateEntryLapses(claimed: real, start: real, lease: real, poll: real, d: real)
    requires lease > 0.0 && 0.0 < poll <= d && claimed <= start
    requires 3.0 * (start - claimed) + 6.0 * d > 2.0 * lease
    requires start - claimed + Times(MostSleeps(lease, poll) + 2, d) >= lease
    ensures !SafeForAllSchedules(claimed, start, lease, poll, d)
  {
    var most := MostSleeps(lease, poll);
    var needed := lease - 2.0 * d - (start - claimed);
    var time := if needed > Times(most, poll) then needed else Times(most, poll);
    TimesGrow(most, poll, d);
    OverrunAfter([], most, time, claimed, start, lease, poll, d);
  }

  lemma {:induction false} TimesGrow(n: nat, x: real, y: real)
    requires x <= y
    ensures Times(n, x) <= Times(n, y)
  {
    if n > 0 { TimesGrow(n - 1, x, y); }
  }

  /** The shortest turns reach the first renewal, which notes its heartbeat `late` after its stamp. */
  lemma FirstRenewal(start: real, lease: real, poll: real, d: real, late: real) returns (cs: seq<Clock>, stamp: real)
    requires lease > 0.0 && 0.0 < poll <= d && 0.0 <= late <= d - poll
    ensures Paced(cs, start, poll, d) && Renewals(cs, start, lease) == [stamp]
    ensures LastHeartbeat(cs, start, lease) == stamp + late && EndTime(cs, start) == stamp + late + poll
  {
    var most := MostSleeps(lease, poll);
    TimesGrow(most, poll, d);
    cs := Fill([], most, Times(most, poll), start, lease, poll, d);
    var quiet := LazyTurn(EndTime(cs, start), poll);
    PacedSnoc(cs, quiet, start, poll, d);
    NotDueStep(cs, quiet, start, lease);
    cs := cs + [quiet];
    stamp := EndTime(cs, start);
    var beat := Clock(stamp, stamp, stamp, stamp + late, stamp + late + poll);
    PacedSnoc(cs, beat, start, poll, d);
    DueStep(cs, beat, start, lease);
    cs := cs + [beat];
  }

  /** Turns that are too long let a later renewal come too late. */
  lemma LongTurnsLapse(claimed: real, start: real, lease: real, poll: real, d: real)
    requires lease > 0.0 && 0.0 < poll <= d
    requires 9.0 * d - 3.0 * poll > 2.0 * lease
    requires Times(MostSleeps(lease, poll) + 2, d) >= lease
    ensures !SafeForAllSchedules(claimed, start, lease, poll, d)
  {
    var most := MostSleeps(lease, poll);
    var cs, stamp;
    assert Times(most + 2, d) == Times(most + 1, d) + d == Times(most, d) + d + d;
    if most == 0 {
      cs, stamp := FirstRenewal(start, lease, poll, d, d - poll);
      LastTurnLapses(cs, claimed, start, lease, poll, d);
    } else {
        var short := Times(most, poll);
      var sum := if lease - 2.0 * d > short then lease - 2.0 * d else short;
      var late := if sum - short < d - poll then sum - short else d - poll;
      TimesGrow(most - 1, poll, d);
      cs, stamp := FirstRenewal(start, lease, poll, d, late);
      OverrunAfter(cs, most - 1, sum - late - poll, claimed, start, lease, poll, d);
    }
  }

  /** Exactly when the lease is safe: no schedule of turns of at most `d`, each ending with a sleep of
      at least `poll`, lets it lapse if and only if `Safe` holds. */
  lemma SafeTurnLength(claimed: real, start: real, lease: real, poll: real, d: real)
    requires lease > 0.0 && 0.0 < poll <= d && claimed <= start
    ensures SafeForAllSchedules(claimed, start, lease, poll, d) <==> Safe(claimed, start, lease, poll, d)
  {
    var most := MostSleeps(lease, poll);
    if 3.0 * (start - claimed) + 6.0 * d > 2.0 * lease && start - claimed + Times(most + 2, d) >= lease {
      LateEntryLapses(claimed, start, lease, poll, d);
    } else if 9.0 * d - 3.0 * poll > 2.0 * lease && Times(most + 2, d) >= lease {
      LongTurnsLapse(claimed, start, lease, poll, d);
    } else {
      forall clocks | Paced(clocks, start, poll, d) ensures NeverLapses(clocks, claimed, start, lease) {
        SafeTurnsKeepLease(clocks, claimed, start, lease, poll, d);
      }
    }
  }

  /** With a sleep of at most a third of the longest turn, the lease is safe exactly when such a turn
      takes no more than 2/9 of it and a third of the sleep, and the loop is entered in time for the
      first renewal. */
  lemma ShortPollSafe(claimed: real, start: real, lease: real, poll: real, d: real)
    requires lease > 0.0 && 0.0 < poll && 3.0 * poll <= d && claimed <= start
    ensures SafeForAllSchedules(claimed, start, lease, poll, d)
            <==> 9.0 * d <= 2.0 * lease + 3.0 * poll && 3.0 * (start - claimed) + 6.0 * d <= 2.0 * lease
  {
    SafeTurnLength(claimed, start, lease, poll, d);
    var most := MostSleeps(lease, poll);
    TimesGrow(most + 1, 3.0 * poll, d);
    TimesIs(most + 1, poll);
    TimesIs(most + 1, 3.0 * poll);
  }
}
