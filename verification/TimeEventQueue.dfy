/** The time event queue of avahi-core/timeeventq.c: events in a timer heap, one armed poll timeout. */
module TimeEventQueue {
  import opened Timeval
  import opened Lists
  import P = PrioQueue

  /** The key of an event: when it is due, and when it last ran (ZERO if it never did). */
  datatype Event = Event(expiry: Timeval, lastRun: Timeval)

  datatype Timeout = Disabled | Armed(at: Timeval)

  function CompareEvents(a: Event, b: Event): int {
    var ret := Compare(a.expiry, b.expiry);
    if ret != 0 then ret else Compare(a.lastRun, b.lastRun)
  }

  lemma EventsPreordered()
    ensures P.TotalPreorder(CompareEvents)
  {
    forall a, b
      ensures P.Opposite(CompareEvents, a, b)
    {
    }
    forall a, b, c
      ensures P.Transitive(CompareEvents, a, b, c)
    {
    }
  }

  ghost predicate RanBy(n: P.Node<Event>, clock: Timeval)
    reads n`data
  {
    Compare(n.data.lastRun, clock) <= 0
  }

  /** Two events that ran did not run at the same instant. */
  ghost predicate RanApart(n: P.Node<Event>, m: P.Node<Event>)
    reads n`data, m`data
  {
    n != m && n.data.lastRun == m.data.lastRun ==> n.data.lastRun == ZERO
  }

  /** Every recorded run is in the past; with a strictly increasing clock no two share an instant. */
  ghost predicate RunsRecorded(s: seq<P.Node<Event>>, clock: Timeval, strict: bool)
    reads s`data
  {
    && Compare(ZERO, clock) <= 0
    && (forall n :: n in s ==> RanBy(n, clock))
    && (strict ==> forall n, m :: n in s && m in s ==> RanApart(n, m))
  }

  lemma RunsOfFewer(s: seq<P.Node<Event>>, t: seq<P.Node<Event>>, clock: Timeval, strict: bool)
    requires RunsRecorded(t, clock, strict) && multiset(s) <= multiset(t)
    ensures RunsRecorded(s, clock, strict)
  {
    forall n | n in s
      ensures n in t
    {
      assert n in multiset(s);
      assert n in multiset(t);
    }
  }

  lemma RunsUntil(s: seq<P.Node<Event>>, clock: Timeval, now: Timeval, strict: bool, strict': bool)
    requires RunsRecorded(s, clock, strict) && Compare(clock, now) <= 0 && (strict' ==> strict)
    ensures RunsRecorded(s, now, strict')
    ensures Compare(clock, now) < 0 ==> forall n :: n in s ==> n.data.lastRun != now
  {
    forall n | n in s
      ensures RanBy(n, now) && (Compare(clock, now) < 0 ==> n.data.lastRun != now)
    {
      assert RanBy(n, clock);
    }
  }

  lemma RunsOfOneMore(s: seq<P.Node<Event>>, t: seq<P.Node<Event>>, e: P.Node<Event>, clock: Timeval, strict: bool)
    requires RunsRecorded(t, clock, strict) && multiset(s) == multiset(t) + multiset{e} && e.data.lastRun == ZERO
    ensures RunsRecorded(s, clock, strict)
  {
    forall n | n in s
      ensures n in t || n == e
    {
      assert n in multiset(s);
      assert n in multiset(t) || n == e;
    }
    forall n, m | strict && n in s && m in s
      ensures RanApart(n, m)
    {
      assert n in t && m in t ==> RanApart(n, m);
    }
  }

  class TimeEventQueue {
    const prioq: P.PrioQueue<Event>
    var timeout: Timeout
    /** The last reading of the clock by ExpirationEvent. */
    ghost var clock: Timeval
    /** Whether every reading so far was later than the one before. */
    ghost var strict: bool

    /** The live events. */
    ghost function Events(): seq<P.Node<Event>>
      reads this, prioq
    {
      prioq.nodes
    }

    ghost predicate DueNoEarlier(t: Timeval, i: int)
      reads this, prioq, prioq.nodes
      requires 0 <= i < |prioq.nodes|
    {
      Compare(t, prioq.nodes[i].data.expiry) <= 0
    }

    /** The armed timeout is the least expiry of the live events; it is disabled when there are none. */
    ghost predicate ArmedAtMinimum()
      reads this, prioq, prioq.nodes
    {
      && (timeout.Disabled? <==> prioq.nodes == [])
      && (timeout.Armed? ==> exists i :: 0 <= i < |prioq.nodes| && prioq.nodes[i].data.expiry == timeout.at)
      && (timeout.Armed? ==> forall i :: 0 <= i < |prioq.nodes| ==> DueNoEarlier(timeout.at, i))
    }

    ghost predicate Valid()
      reads this, prioq, prioq.nodes
    {
      prioq.Valid() && prioq.compare == CompareEvents && RunsRecorded(prioq.nodes, clock, strict) && ArmedAtMinimum()
    }

    constructor ()
      ensures Valid() && fresh(prioq) && Events() == [] && clock == ZERO && strict
    {
      EventsPreordered();
      var q := new P.PrioQueue<Event>(CompareEvents);
      prioq := q;
      timeout := Disabled;
      clock, strict := ZERO, true;
    }

    method UpdateTimeout()
      requires prioq.Valid() && prioq.compare == CompareEvents
      modifies this`timeout
      ensures ArmedAtMinimum()
    {
      if prioq.root != null {
        timeout := Armed(prioq.root.data.expiry);
        forall i | 0 <= i < |prioq.nodes|
          ensures DueNoEarlier(timeout.at, i)
        {
          P.RootIsLeast(P.Data(prioq.nodes), CompareEvents, i);
        }
      } else {
        timeout := Disabled;
      }
    }

    /** Schedules a new event; without an expiry it is due at once. */
    method New(expiry: Timeout) returns (e: P.Node<Event>)
      requires Valid()
      modifies this`timeout, prioq`root, prioq`last, prioq`nNodes, prioq`nodes, prioq`repr
      modifies prioq.repr`x, prioq.repr`y, prioq.repr`left, prioq.repr`right, prioq.repr`parent, prioq.repr`next,
               prioq.repr`prev
      ensures Valid() && fresh(e)
      ensures e.data == Event(if expiry.Armed? then expiry.at else ZERO, ZERO)
      ensures multiset(Events()) == old(multiset(Events())) + multiset{e}
    {
      hide RunsRecorded, ArmedAtMinimum, P.TreeLinks, P.ListLinks, P.Coordinates, P.HeapOrder, P.TotalPreorder, P.Data;
      ghost var before := prioq.nodes;
      e := prioq.Put(Event(if expiry.Armed? then expiry.at else ZERO, ZERO));
      RunsOfOneMore(prioq.nodes, before, e, clock, strict);
      UpdateTimeout();
    }

    /** Moves an event to another expiry. */
    method Update(e: P.Node<Event>, expiry: Timeval, ghost i: int)
      requires Valid() && 0 <= i < |prioq.nodes| && prioq.nodes[i] == e
      modifies this`timeout, prioq`root, prioq`last, prioq`nodes, e`data
      modifies prioq.repr`x, prioq.repr`y, prioq.repr`left, prioq.repr`right, prioq.repr`parent, prioq.repr`next,
               prioq.repr`prev
      ensures Valid() && e.data == old(e.data).(expiry := expiry)
      ensures multiset(Events()) == old(multiset(Events()))
    {
      hide ArmedAtMinimum, P.TreeLinks, P.ListLinks, P.Coordinates, P.HeapOrder, P.TotalPreorder, P.Data;
      ghost var before := prioq.nodes;
      Rekey(e, e.data.(expiry := expiry), i);
      RunsOfFewer(prioq.nodes, before, clock, strict);
      UpdateTimeout();
    }

    /** Gives the event at index i another key and moves it to where the key belongs. */
    method Rekey(e: P.Node<Event>, key: Event, ghost i: int)
      requires prioq.Valid() && prioq.compare == CompareEvents && 0 <= i < |prioq.nodes| && prioq.nodes[i] == e
      modifies prioq`root, prioq`last, prioq`nodes, e`data
      modifies prioq.repr`x, prioq.repr`y, prioq.repr`left, prioq.repr`right, prioq.repr`parent, prioq.repr`next,
               prioq.repr`prev
      ensures prioq.Valid() && e.data == key && multiset(prioq.nodes) == old(multiset(prioq.nodes))
    {
      P.ChangedKey(P.Data(prioq.nodes), CompareEvents, i, key);
      P.CoordinatesDistinct(prioq.nodes);
      e.data := key;
      assert P.Data(prioq.nodes) == old(P.Data(prioq.nodes))[i := key] by {
        forall k | 0 <= k < |prioq.nodes|
          ensures P.Data(prioq.nodes)[k] == old(P.Data(prioq.nodes))[i := key][k]
        {
          assert Apart(prioq.nodes, i, k);
        }
      }
      prioq.Shuffle(e, i);
    }

    /** Drops an event. */
    method Free(e: P.Node<Event>, ghost i: int)
      requires Valid() && 0 <= i < |prioq.nodes| && prioq.nodes[i] == e
      modifies this`timeout, prioq`root, prioq`last, prioq`nNodes, prioq`nodes
      modifies prioq.repr`x, prioq.repr`y, prioq.repr`left, prioq.repr`right, prioq.repr`parent, prioq.repr`next,
               prioq.repr`prev
      ensures Valid() && multiset(Events()) == old(multiset(Events())) - multiset{e}
    {
      hide RunsRecorded, ArmedAtMinimum, P.TreeLinks, P.ListLinks, P.Coordinates, P.HeapOrder, P.TotalPreorder, P.Data;
      ghost var before := prioq.nodes;
      prioq.Remove(e, i);
      RunsOfFewer(prioq.nodes, before, clock, strict);
      UpdateTimeout();
    }

    ghost predicate OrdersFirst(e: P.Node<Event>, n: P.Node<Event>)
      reads e`data, n`data
    {
      CompareEvents(e.data, n.data) <= 0
    }

    ghost predicate FirstOf(e: P.Node<Event>)
      reads this, prioq`nodes, e`data, prioq.nodes`data
    {
      forall n :: n in prioq.nodes ==> OrdersFirst(e, n)
    }

    /** If e ran before, every other event of the same expiry has run since. */
    ghost predicate NobodyWaits(e: P.Node<Event>)
      reads this, prioq`nodes, e`data, prioq.nodes`data
    {
      e.data.lastRun != ZERO ==>
        forall n :: n in prioq.nodes && n != e && n.data.expiry == e.data.expiry ==>
          Compare(e.data.lastRun, n.data.lastRun) < 0
    }

    ghost predicate NothingDue(now: Timeval)
      reads this, prioq`nodes, prioq.nodes`data
    {
      forall n :: n in prioq.nodes ==> Compare(now, n.data.expiry) < 0
    }

    lemma NothingDueYet(now: Timeval)
      requires prioq.nodes != [] && FirstOf(prioq.nodes[0])
      ensures NothingDue(now) <==> Compare(now, prioq.nodes[0].data.expiry) < 0
    {
      forall n | n in prioq.nodes && Compare(now, prioq.nodes[0].data.expiry) < 0
        ensures Compare(now, n.data.expiry) < 0
      {
        assert OrdersFirst(prioq.nodes[0], n);
      }
    }

    lemma RootIsFirst()
      requires Valid() && prioq.nodes != []
      ensures FirstOf(prioq.nodes[0]) && (strict ==> NobodyWaits(prioq.nodes[0]))
    {
      var e := prioq.nodes[0];
      forall n | n in prioq.nodes
        ensures OrdersFirst(e, n)
      {
        var i :| 0 <= i < |prioq.nodes| && prioq.nodes[i] == n;
        P.RootIsLeast(P.Data(prioq.nodes), CompareEvents, i);
      }
      forall n | strict && n in prioq.nodes && n != e && n.data.expiry == e.data.expiry && e.data.lastRun != ZERO
        ensures Compare(e.data.lastRun, n.data.lastRun) < 0
      {
        assert RanApart(e, n) && OrdersFirst(e, n);
      }
    }

    /** Records that the event at the root runs now, which moves it away from the front. */
    method RunRoot(now: Timeval)
      requires Valid() && Compare(clock, now) <= 0 && prioq.nodes != []
      modifies this`timeout, this`clock, this`strict, prioq`root, prioq`last, prioq`nodes, prioq.root`data
      modifies prioq.repr`x, prioq.repr`y, prioq.repr`left, prioq.repr`right, prioq.repr`parent, prioq.repr`next,
               prioq.repr`prev
      ensures Valid() && clock == now && strict == old(strict && Compare(clock, now) < 0)
      ensures multiset(Events()) == old(multiset(Events()))
      ensures old(prioq.root).data == old(prioq.root.data).(lastRun := now)
    {
      hide ArmedAtMinimum, P.TreeLinks, P.ListLinks, P.Coordinates, P.HeapOrder, P.TotalPreorder, P.Data;
      ghost var before := prioq.nodes;
      var e := prioq.root;
      RunsUntil(before, clock, now, strict, strict && Compare(clock, now) < 0);
      clock, strict := now, strict && Compare(clock, now) < 0;
      Rekey(e, e.data.(lastRun := now), 0);
      RunsOfFewer(prioq.nodes, before, clock, strict);
      UpdateTimeout();
    }

    method RunNothing(now: Timeval)
      requires Valid() && Compare(clock, now) <= 0
      modifies this`timeout, this`clock, this`strict
      ensures Valid() && clock == now && strict == old(strict && Compare(clock, now) < 0)
    {
      hide RunsRecorded, ArmedAtMinimum, P.PrioQueue.Valid;
      RunsUntil(prioq.nodes, clock, now, strict, strict && Compare(clock, now) < 0);
      clock, strict := now, strict && Compare(clock, now) < 0;
      UpdateTimeout();
    }

    /** The poll timeout elapsed, at time now: runs the first event if it is due. */
    method ExpirationEvent(now: Timeval) returns (ran: P.Node?<Event>)
      requires Valid() && Compare(clock, now) <= 0
      modifies this`timeout, this`clock, this`strict, prioq`root, prioq`last, prioq`nodes, prioq.repr`data
      modifies prioq.repr`x, prioq.repr`y, prioq.repr`left, prioq.repr`right, prioq.repr`parent, prioq.repr`next,
               prioq.repr`prev
      ensures Valid() && clock == now && strict == old(strict && Compare(clock, now) < 0)
      ensures multiset(Events()) == old(multiset(Events()))
      // if nothing runs, nothing is due
      ensures ran == null ==> old(NothingDue(now))
      // the event that runs is due, was the first of all events, and its run is recorded
      ensures ran != null ==> ran in old(Events()) && old(Compare(now, ran.data.expiry)) >= 0 && !old(NothingDue(now))
      ensures ran != null ==> old(FirstOf(ran)) && (old(strict) ==> old(NobodyWaits(ran)))
      ensures ran != null ==> ran.data == old(ran.data).(lastRun := now)
      ensures forall n :: n in old(Events()) && n != ran ==> n.data == old(n.data)
    {
      hide FirstOf, NobodyWaits, P.TreeLinks, P.ListLinks, P.Coordinates, P.HeapOrder, P.TotalPreorder, P.Data;
      ran := null;
      if prioq.root != null {
        RootIsFirst();
        NothingDueYet(now);
        if Compare(now, prioq.root.data.expiry) >= 0 {
          ran := prioq.root;
          RunRoot(now);
          return;
        }
      }
      RunNothing(now);
    }
  }
}
