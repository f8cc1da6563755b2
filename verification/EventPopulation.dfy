/** The event-population benchmark of utils/bench-scheduler.cc on a simulator that always runs
    an event with the least time stamp, in nanoseconds. */
module EventPopulation {
  import opened Common

  class Bench {
    const population: nat
    const total: nat
    /** The stream of delays: draw k has the value rand(k). */
    const rand: nat -> nat
    var draws: nat
    var count: nat

    // The simulator.  Events are numbered in the order in which they are scheduled.
    var now: nat
    var due: seq<nat>
    var pending: set<nat>
    var stopped: bool

    constructor (population: nat, total: nat, rand: nat -> nat)
      ensures this.population == population && this.total == total && this.rand == rand
    {
      this.population, this.total, this.rand := population, total, rand;
      draws, count, now, due, pending, stopped := 0, 0, 0, [], {}, false;
    }

    method Schedule(delay: nat)
      modifies `due, `pending
      ensures due == old(due) + [now + delay] && pending == old(pending) + {|old(due)|}
    {
      pending := pending + {|due|};
      due := due + [now + delay];
    }

    method Draw() returns (delay: nat)
      modifies `draws
      ensures delay == rand(old(draws)) && draws == old(draws) + 1
    {
      delay := rand(draws);
      draws := draws + 1;
    }

    /** One callback: it either stops the simulator or puts a new event in its place. */
    method Cb()
      modifies `draws, `count, `due, `pending, `stopped
      ensures old(count) >= total ==>
        stopped && count == old(count) && draws == old(draws) && due == old(due) && pending == old(pending)
      ensures old(count) < total ==>
        stopped == old(stopped) && count == old(count) + 1 && draws == old(draws) + 1
        && due == old(due) + [now + rand(old(draws))] && pending == old(pending) + {|old(due)|}
    {
      if count >= total {
        stopped := true;
        return;
      }
      var after := Draw();
      Schedule(after);
      count := count + 1;
    }

    /** The simulator takes out an event that is due first and advances the time to it. */
    method Next(ghost ran: seq<nat>) returns (e: nat)
      requires pending != {} && Conserved(ran, pending, due, now)
      modifies `now, `pending
      ensures Conserved(ran + [e], pending, due, now)
      ensures e in old(pending) && pending == old(pending) - {e}
      ensures now == due[e] && forall k | k in old(pending) :: due[e] <= due[k]
    {
      e := Earliest(due, pending);
      Retired(ran, e, pending, due, now);
      now := due[e];
      pending := pending - {e};
    }

    /** The initial events, each at the next draw. */
    method Populate()
      requires now == 0 && due == [] && pending == {}
      modifies `draws, `due, `pending
      ensures |due| == population && forall k | 0 <= k < population :: due[k] == rand(old(draws) + k)
      ensures Conserved([], pending, due, now) && draws == old(draws) + population
    {
      for i := 0 to population
        invariant |due| == i && forall k | 0 <= k < i :: due[k] == rand(old(draws) + k)
        invariant |pending| == i && (forall k | k in pending :: k < i) && draws == old(draws) + i
      {
        var at := Draw();
        Schedule(at);
      }
    }

    /** One turn of the simulator: the next event and its callback. */
    method RunOne(ghost ran: seq<nat>) returns (e: nat)
      requires pending != {} && !stopped && Conserved(ran, pending, due, now)
      modifies `draws, `count, `now, `due, `pending, `stopped
      ensures Conserved(ran + [e], pending, due, now) && e < |old(due)| <= |due|
      ensures old(count) >= total ==>
        stopped && count == old(count) && draws == old(draws) && due == old(due)
      ensures old(count) < total ==>
        !stopped && count == old(count) + 1 && draws == old(draws) + 1
        && due == old(due) + [old(due)[e] + rand(old(draws))]
    {
      e := Next(ran);
      if count < total {
        Added(ran + [e], pending, due, now, now + rand(draws));
      }
      Cb();
    }

    /** One run.  `ran` are the numbers of the events whose callbacks were run, in this order, and
        `sizes` the numbers of pending events right before them.

        With a population every callback finds exactly that many events, there is one more
        callback than events to execute, no event is lost or run twice, time never runs
        backwards, and what was run is what was due first.  The times follow from the draws. */
    method Run() returns (events: nat, ran: seq<nat>, sizes: seq<nat>)
      modifies this
      ensures population > 0 ==> events == total && |ran| == |sizes| == total + 1
      ensures population == 0 ==> events == 0 && ran == []
      ensures forall s | s in sizes :: s == population
      ensures Conserved(ran, pending, due, now) && draws == old(draws) + population + events
      ensures FollowsDraws(rand, old(draws), population, due, ran, events)
    {
      count, now, due, pending, stopped := 0, 0, [], {}, false;
      ran, sizes := [], [];
      Populate();
      while !stopped && pending != {}
        invariant stopped ==> count == total && |ran| == total + 1
        invariant !stopped ==> count == |ran| <= total
        invariant population == 0 ==> ran == [] && !stopped
        invariant |ran| == |sizes| && forall s | s in sizes :: s == population
        invariant draws == old(draws) + population + count
        invariant FollowsDraws(rand, old(draws), population, due, ran, count)
        invariant Conserved(ran, pending, due, now)
        decreases if stopped then 0 else 1 + total - count
      {
        sizes := sizes + [|pending|];
        ghost var before := due;
        var e := RunOne(ran);
        FollowsOneMore(rand, old(draws), population, before, ran, e, due, count);
        ran := ran + [e];
      }
      events := count;
    }
  }

  /** Every event ever scheduled has either run, once, or is pending; they ran in the order of
      their times, and none that is pending is due before the current time. */
  ghost predicate Conserved(ran: seq<nat>, pending: set<nat>, due: seq<nat>, now: nat) {
    && Distinct(ran) && |ran| + |pending| == |due|
    && (forall i | 0 <= i < |ran| :: ran[i] < |due| && ran[i] !in pending && due[ran[i]] <= now)
    && (forall i, j | 0 <= i < j < |ran| :: due[ran[i]] <= due[ran[j]])
    && (forall k | k in pending :: k < |due| && now <= due[k])
  }

  /** The initial events are due at the first draws, and each callback but a last one that stops
      the simulator schedules one at the next draw after its own time. */
  ghost predicate FollowsDraws(rand: nat -> nat, first: nat, population: nat, due: seq<nat>, ran: seq<nat>,
                               events: nat)
  {
    && events <= |ran| && |due| == population + events && (forall i | 0 <= i < |ran| :: ran[i] < |due|)
    && (forall k | 0 <= k < population :: due[k] == rand(first + k))
    && forall j | 0 <= j < events :: due[population + j] == due[ran[j]] + rand(first + population + j)
  }

  lemma FollowsOneMore(rand: nat -> nat, first: nat, population: nat, due: seq<nat>, ran: seq<nat>, e: nat,
                       due': seq<nat>, events: nat)
    requires FollowsDraws(rand, first, population, due, ran, |ran|) && e < |due|
    requires (due' == due && events == |ran|)
          || (due' == due + [due[e] + rand(first + population + |ran|)] && events == |ran| + 1)
    ensures FollowsDraws(rand, first, population, due', ran + [e], events)
  {
  }

  /** A first event moves from what is pending to what has run. */
  lemma Retired(ran: seq<nat>, e: nat, pending: set<nat>, due: seq<nat>, now: nat)
    requires Conserved(ran, pending, due, now)
    requires e in pending && forall k | k in pending :: due[e] <= due[k]
    ensures Conserved(ran + [e], pending - {e}, due, due[e])
  {
  }

  /** A new event is not due before the current time. */
  lemma Added(ran: seq<nat>, pending: set<nat>, due: seq<nat>, now: nat, next: nat)
    requires Conserved(ran, pending, due, now) && now <= next
    ensures Conserved(ran, pending + {|due|}, due + [next], now)
  {
  }

  ghost function Below(n: nat): set<nat> { if n == 0 then {} else Below(n - 1) + {n - 1} }

  lemma {:induction false} BelowIs(n: nat)
    ensures |Below(n)| == n && forall k: nat :: k in Below(n) <==> k < n
  {
    if n > 0 { BelowIs(n - 1); }
  }

  ghost function Members(s: seq<nat>): set<nat> { if s == [] then {} else Members(s[1..]) + {s[0]} }

  lemma {:induction false} MembersAre(s: seq<nat>)
    ensures forall k :: k in Members(s) <==> k in s
    ensures Distinct(s) ==> |Members(s)| == |s|
  {
    if s != [] {
      MembersAre(s[1..]);
      assert s == [s[0]] + s[1..];
      if Distinct(s) {
        assert Distinct(s[1..]) && s[0] !in s[1..];
      }
    }
  }

  /** Nothing is lost: by counting, every number below that of the next event has either run or
      is pending. */
  lemma NothingIsLost(ran: seq<nat>, pending: set<nat>, due: seq<nat>, now: nat, e: nat)
    requires Conserved(ran, pending, due, now) && e < |due|
    ensures e in ran <==> e !in pending
  {
    BelowIs(|due|);
    MembersAre(ran);
    var all := Members(ran) + pending;
    assert forall k | k in ran :: exists i :: 0 <= i < |ran| && ran[i] == k;
    assert Members(ran) * pending == {} && all <= Below(|due|);
    if e !in all {
      Smaller(all, Below(|due|) - {e});
    }
  }

  lemma {:induction false} Smaller(a: set<nat>, b: set<nat>)
    requires a <= b
    ensures |a| <= |b|
  {
    assert b == a + (b - a);
  }

  method Earliest(due: seq<nat>, events: set<nat>) returns (e: nat)
    requires events != {} && forall k | k in events :: k < |due|
    ensures e in events && forall k | k in events :: due[e] <= due[k]
  {
    e :| e in events;
    var rest := events - {e};
    while rest != {}
      invariant e in events && rest <= events && forall k | k in events :: k in rest || due[e] <= due[k]
      decreases |rest|
    {
      var k :| k in rest;
      if due[k] < due[e] {
        e := k;
      }
      rest := rest - {k};
    }
  }
}
