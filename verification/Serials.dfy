/**
 * The editor's queue of work, one thing at a time in the order asked for, on top of promises whose
 * reactions run in whatever order the event loop picks.
 */
module Serials {
  datatype Promise = Pending | Fulfilled | Rejected

  /**
   * What a promise is to set off once it is settled: starting a work, whose outcome settles `result` (a
   * rejection goes past the work, straight to `result`), or fulfilling `result` whatever the outcome.
   */
  datatype Reaction = Launch(source: nat, work: nat, result: nat) | Absorb(source: nat, result: nat)

  datatype Event = Begin(work: nat) | End(work: nat, ok: bool)

  /** How far the foremost unfinished work has come. */
  datatype Stage = Waiting | Working | Settled

  /** The promise the caller of work `k` was given. */
  function Answer(k: nat): nat {
    2 * k + 1
  }

  /** The promise that work `k` and all before it are over. */
  function Over(k: nat): nat {
    2 * k + 2
  }

  function Settling(promises: seq<Promise>, i: nat, p: Promise): (r: seq<Promise>)
    ensures |r| == |promises|
  {
    if i < |promises| then promises[i := p] else promises
  }

  // ---- where the promises and the reactions stand, work `m` of `n` being the foremost ----

  ghost predicate PromisesStand(promises: seq<Promise>, n: nat, m: nat, stage: Stage) {
    && |promises| == 2 * n + 1 && m <= n && (m == n ==> stage == Waiting)
    && promises[0] == Fulfilled
    && (forall k: nat | k < m :: promises[Answer(k)] != Pending && promises[Over(k)] == Fulfilled)
    && (forall k: nat | m < k < n :: promises[Answer(k)] == Pending)
    && (forall k: nat | m <= k < n :: promises[Over(k)] == Pending)
    && (m < n ==> (promises[Answer(m)] == Pending <==> stage != Settled))
  }

  /** Work `k` has not begun. */
  predicate NotBegun(k: nat, n: nat, m: nat, stage: Stage) {
    k < n && (m < k || (m == k && stage == Waiting))
  }

  predicate IsReactionOf(r: Reaction, n: nat, m: nat, stage: Stage) {
    match r
    case Launch(s, k, q) => s == 2 * k && q == Answer(k) && NotBegun(k, n, m, stage)
    case Absorb(s, q) => s % 2 == 1 && q == s + 1 && m <= s / 2 < n
  }

  ghost predicate ReactionsStand(reactions: set<Reaction>, n: nat, m: nat, stage: Stage) {
    forall r: Reaction :: r in reactions <==> IsReactionOf(r, n, m, stage)
  }

  /** What was started and what ended, for works that ended as `promises` say. */
  function History(promises: seq<Promise>, n: nat): seq<Event> {
    if n == 0 then []
    else
      var ok := Answer(n - 1) < |promises| && promises[Answer(n - 1)] == Fulfilled;
      History(promises, n - 1) + [Begin(n - 1), End(n - 1, ok)]
  }

  function LogOf(promises: seq<Promise>, m: nat, stage: Stage): seq<Event> {
    match stage
    case Waiting => History(promises, m)
    case Working => History(promises, m) + [Begin(m)]
    case Settled => History(promises, m + 1)
  }

  lemma {:induction false} HistoryKept(a: seq<Promise>, b: seq<Promise>, n: nat)
    requires forall k: nat | k < n :: Answer(k) < |a| && Answer(k) < |b| && a[Answer(k)] == b[Answer(k)]
    ensures History(a, n) == History(b, n)
  {
    if n > 0 { HistoryKept(a, b, n - 1); }
  }

  // ---- the steps, one part of the state at a time ----

  lemma {:induction false} AskedPromises(a: seq<Promise>, n: nat, m: nat, stage: Stage)
    requires PromisesStand(a, n, m, stage)
    ensures PromisesStand(a + [Pending] + [Pending], n + 1, m, stage)
    ensures LogOf(a + [Pending] + [Pending], m, stage) == LogOf(a, m, stage)
  {
    var b := a + [Pending] + [Pending];
    assert Answer(n) == |a| && Over(n) == |a| + 1;
    assert forall i | 0 <= i < |a| :: b[i] == a[i];
    HistoryKept(a, b, if stage == Settled then m + 1 else m);
  }

  lemma {:induction false} AskedReactions(r: set<Reaction>, n: nat, m: nat, stage: Stage)
    requires ReactionsStand(r, n, m, stage) && m <= n && (m == n ==> stage == Waiting)
    ensures ReactionsStand(r + {Launch(2 * n, n, Answer(n))} + {Absorb(Answer(n), Over(n))}, n + 1, m, stage)
  {
  }

  /** Only the foremost work can be launched, and its predecessors' promise did not fail it. */
  lemma {:induction false} LaunchIsForemost(promises: seq<Promise>, n: nat, m: nat, stage: Stage, r: Reaction)
    requires PromisesStand(promises, n, m, stage) && IsReactionOf(r, n, m, stage)
    requires r.Launch? && r.source < |promises| && promises[r.source] != Pending
    ensures r.work == m < n && stage == Waiting && promises[r.source] == Fulfilled
  {
    assert r.work > m ==> Over(r.work - 1) == r.source;
    assert m > 0 ==> promises[Over(m - 1)] == Fulfilled;
  }

  lemma {:induction false} LaunchReactions(rs: set<Reaction>, n: nat, m: nat, r: Reaction)
    requires ReactionsStand(rs, n, m, Waiting) && r.Launch? && r.work == m && r in rs
    ensures ReactionsStand(rs - {r}, n, m, Working)
  {
  }

  lemma {:induction false} AbsorbIsForemost(promises: seq<Promise>, n: nat, m: nat, stage: Stage, r: Reaction)
    requires PromisesStand(promises, n, m, stage) && IsReactionOf(r, n, m, stage)
    requires r.Absorb? && r.source < |promises| && promises[r.source] != Pending
    ensures r == Absorb(Answer(m), Over(m)) && m < n && stage == Settled
  {
    assert r.source / 2 > m ==> Answer(r.source / 2) == r.source;
  }

  lemma {:induction false} AbsorbReactions(rs: set<Reaction>, n: nat, m: nat)
    requires ReactionsStand(rs, n, m, Settled) && m < n
    ensures ReactionsStand(rs - {Absorb(Answer(m), Over(m))}, n, m + 1, Waiting)
  {
  }

  lemma {:induction false} AbsorbPromises(a: seq<Promise>, n: nat, m: nat)
    requires PromisesStand(a, n, m, Settled)
    ensures var b := Settling(a, Over(m), Fulfilled);
            PromisesStand(b, n, m + 1, Waiting) && LogOf(b, m + 1, Waiting) == LogOf(a, m, Settled)
  {
    var b := Settling(a, Over(m), Fulfilled);
    HistoryKept(a, b, m + 1);
  }

  lemma {:induction false} SettlePromises(a: seq<Promise>, n: nat, m: nat, ok: bool)
    requires PromisesStand(a, n, m, Working)
    ensures var b := Settling(a, Answer(m), if ok then Fulfilled else Rejected);
            PromisesStand(b, n, m, Settled) && LogOf(b, m, Settled) == LogOf(a, m, Working) + [End(m, ok)]
  {
    var b := Settling(a, Answer(m), if ok then Fulfilled else Rejected);
    HistoryKept(a, b, m);
  }

  // ---- what the log says in every state ----

  /** Events alternate: work `k` begins, ends, and then work `k + 1` begins. */
  ghost predicate InTurn(log: seq<Event>) {
    forall i | 0 <= i < |log| ::
      if i % 2 == 0 then log[i] == Begin(i / 2) else log[i].End? && log[i].work == i / 2
  }

  lemma {:induction false} HistoryInTurn(promises: seq<Promise>, n: nat)
    ensures |History(promises, n)| == 2 * n && InTurn(History(promises, n))
    ensures forall k: nat | k < n && Answer(k) < |promises| ::
              History(promises, n)[2 * k + 1] == End(k, promises[Answer(k)] == Fulfilled)
  {
    if n > 0 { HistoryInTurn(promises, n - 1); }
  }

  /**
   * Works start in the order they were asked for and never overlap, and whoever asked for one that has
   * ended is answered with its own outcome.
   */
  lemma {:induction false} LogInTurn(promises: seq<Promise>, n: nat, m: nat, stage: Stage)
    requires PromisesStand(promises, n, m, stage)
    ensures var log := LogOf(promises, m, stage);
            && InTurn(log)
            && forall k: nat | k < n ::
                 (promises[Answer(k)] != Pending <==> 2 * k + 1 < |log|)
                 && (2 * k + 1 < |log| ==> log[2 * k + 1] == End(k, promises[Answer(k)] == Fulfilled))
  {
    HistoryInTurn(promises, m);
    if stage == Settled { HistoryInTurn(promises, m + 1); }
  }

  /** The queue never stalls: while works are left, one is running or some reaction can run. */
  lemma {:induction false} SomethingReady(promises: seq<Promise>, reactions: set<Reaction>, n: nat, m: nat,
                                          stage: Stage)
    requires PromisesStand(promises, n, m, stage) && ReactionsStand(reactions, n, m, stage)
    requires m < n && stage != Working
    ensures exists r :: r in reactions && r.source < |promises| && promises[r.source] != Pending
  {
    if stage == Waiting {
      assert m > 0 ==> promises[Over(m - 1)] == Fulfilled;
      assert IsReactionOf(Launch(2 * m, m, Answer(m)), n, m, stage);
      assert Launch(2 * m, m, Answer(m)) in reactions;
    } else {
      assert IsReactionOf(Absorb(Answer(m), Over(m)), n, m, stage);
      assert Absorb(Answer(m), Over(m)) in reactions;
    }
  }

  // ---- the queue ----

  class Serial {
    var promises: seq<Promise>
    var reactions: set<Reaction>
    var running: map<nat, nat>
    var log: seq<Event>
    var tail: nat

    /** Works asked for so far. */
    function Asked(): nat
      reads this
    {
      |promises| / 2
    }

    ghost predicate Stands(m: nat, stage: Stage)
      reads this
    {
      && PromisesStand(promises, Asked(), m, stage)
      && ReactionsStand(reactions, Asked(), m, stage)
      && tail == 2 * Asked()
      && running == (if stage == Working then map[m := Answer(m)] else map[])
      && log == LogOf(promises, m, stage)
    }

    /** Some work is foremost; those before it are over, and those behind it have not begun. */
    ghost predicate Valid()
      reads this
    {
      exists m: nat, stage: Stage :: Stands(m, stage)
    }

    constructor ()
      ensures Valid() && Asked() == 0 && log == [] && running == map[]
    {
      promises, reactions, running, log, tail := [Fulfilled], {}, map[], [], 0;
      new;
      assert Stands(0, Waiting);
    }

    /** Queues a work; the answer is the promise of its own outcome. */
    method Run() returns (work: nat, started: nat)
      requires Valid()
      modifies this
      ensures Valid() && work == old(Asked()) && Asked() == work + 1 && started == Answer(work)
      ensures promises == old(promises) + [Pending] + [Pending]
      ensures log == old(log) && running == old(running)
    {
      ghost var m: nat, stage: Stage :| Stands(m, stage);
      AskedPromises(promises, Asked(), m, stage);
      AskedReactions(reactions, Asked(), m, stage);
      work := |promises| / 2;
      started := |promises|;
      promises := promises + [Pending];
      reactions := reactions + {Launch(tail, work, started)};
      var next := |promises|;
      promises := promises + [Pending];
      reactions := reactions + {Absorb(started, next)};
      tail := next;
      assert promises == old(promises) + [Pending] + [Pending] && |promises| / 2 == work + 1;
      assert reactions == old(reactions) + {Launch(2 * work, work, Answer(work))} + {Absorb(Answer(work), Over(work))};
      assert Stands(m, stage);
    }

    /** The event loop runs one reaction whose promise is settled, any one. */
    method Fire(r: Reaction)
      requires Valid() && r in reactions && r.source < |promises| && promises[r.source] != Pending
      modifies this
      ensures Valid() && Asked() == old(Asked())
      ensures r.Launch? ==> promises == old(promises) && old(running) == map[]
                            && running == map[r.work := r.result] && log == old(log) + [Begin(r.work)]
      ensures r.Absorb? ==> running == old(running) && log == old(log)
                            && promises == Settling(old(promises), r.result, Fulfilled)
    {
      if r.Launch? { FireLaunch(r); } else { FireAbsorb(r); }
    }

    method FireLaunch(r: Reaction)
      requires Valid() && r in reactions && r.Launch? && r.source < |promises| && promises[r.source] != Pending
      modifies this
      ensures Valid() && Asked() == old(Asked())
      ensures promises == old(promises) && old(running) == map[]
      ensures running == map[r.work := r.result] && log == old(log) + [Begin(r.work)]
    {
      ghost var m: nat, stage: Stage :| Stands(m, stage);
      LaunchIsForemost(promises, Asked(), m, stage, r);
      LaunchReactions(reactions, Asked(), m, r);
      reactions := reactions - {r};
      var begins := promises[r.source] == Fulfilled;
      promises := if begins then promises else Settling(promises, r.result, Rejected);
      running := if begins then running[r.work := r.result] else running;
      log := if begins then log + [Begin(r.work)] else log;
      assert Stands(m, Working);
    }

    method FireAbsorb(r: Reaction)
      requires Valid() && r in reactions && r.Absorb? && r.source < |promises| && promises[r.source] != Pending
      modifies this
      ensures Valid() && Asked() == old(Asked())
      ensures running == old(running) && log == old(log) && promises == Settling(old(promises), r.result, Fulfilled)
    {
      ghost var m: nat, stage: Stage :| Stands(m, stage);
      AbsorbIsForemost(promises, Asked(), m, stage, r);
      AbsorbReactions(reactions, Asked(), m);
      AbsorbPromises(promises, Asked(), m);
      reactions := reactions - {r};
      promises := Settling(promises, r.result, Fulfilled);
      assert Stands(m + 1, Waiting);
    }

    /** The running work ends, well or not. */
    method Settle(work: nat, ok: bool)
      requires Valid() && work in running
      modifies this
      ensures Valid() && Asked() == old(Asked())
      ensures running == map[] && log == old(log) + [End(work, ok)]
      ensures promises == Settling(old(promises), Answer(work), if ok then Fulfilled else Rejected)
    {
      ghost var m: nat, stage: Stage :| Stands(m, stage);
      SettlePromises(promises, Asked(), m, ok);
      promises := Settling(promises, running[work], if ok then Fulfilled else Rejected);
      running := running - {work};
      log := log + [End(work, ok)];
      assert Stands(m, Settled);
    }

    /**
     * In every state the works have begun in the order they were asked for, one at a time, and whoever asked
     * for one that has ended is answered with its own outcome.
     */
    lemma {:induction false} OneAtATime()
      requires Valid()
      ensures InTurn(log) && |running| <= 1
      ensures forall k: nat | k < Asked() ::
                && Answer(k) < |promises|
                && (promises[Answer(k)] != Pending <==> 2 * k + 1 < |log|)
                && (2 * k + 1 < |log| ==> log[2 * k + 1] == End(k, promises[Answer(k)] == Fulfilled))
      ensures forall k: nat | k in running :: k < Asked() && log != [] && log[|log| - 1] == Begin(k)
    {
      var m: nat, stage: Stage :| Stands(m, stage);
      LogInTurn(promises, Asked(), m, stage);
    }

    /** While a work has not ended, one is running or some reaction can run. */
    lemma {:induction false} NeverStalls()
      requires Valid() && exists k: nat :: k < Asked() && Over(k) < |promises| && promises[Over(k)] == Pending
      ensures running != map[] || exists r :: r in reactions && r.source < |promises| && promises[r.source] != Pending
    {
      var m: nat, stage: Stage :| Stands(m, stage);
      var k: nat :| k < Asked() && Over(k) < |promises| && promises[Over(k)] == Pending;
      assert m <= k;
      if stage == Working {
        assert m in running;
      } else {
        SomethingReady(promises, reactions, Asked(), m, stage);
      }
    }
  }
}
