/** Entry groups and their announcers, avahi-core/announce.c and the group functions of entry.c: probing
    (section 8.1 of RFC 6762), the counter that gates the group, and announcing (section 8.3). */
module Announce {
  import opened Domain
  import opened Timeval

  const ANNOUNCEMENT_JITTER_MSEC := 250
  const PROBE_JITTER_MSEC := 250
  const PROBE_INTERVAL_MSEC := 250
  const RR_HOLDOFF_MSEC := 1000
  const RR_HOLDOFF_MSEC_RATE_LIMIT := 20000
  const RR_RATE_LIMIT_COUNT := 15

  datatype Flags = Flags(unique: bool, noProbe: bool, noAnnounce: bool)

  datatype State = Probing | Waiting | Announcing | Established

  datatype GroupState = Uncommitted | Registering | Registered | Collision

  /** What a time event was set to: a point in time, and up to so many milliseconds more. */
  datatype Timeout = Off | At(due: Timeval, jitter: nat)

  /** avahi_elapse_time */
  function ElapseTime(now: Timeval, msec: nat, jitter: nat): (t: Timeout)
    ensures t.At? && Micros(t.due) == Micros(now) + msec * 1000 && t.jitter == jitter
  {
    AddMoves(now, msec * 1000);
    At(Add(now, msec * 1000), jitter)
  }

  datatype Event =
    | Changed(state: GroupState)
    | Probe(entry: Entry, interface: nat)
    | Announcement(entry: Entry, interface: nat)
    | Goodbye(entry: Entry, interface: nat)

  datatype Interface = Interface(id: nat, announcing: bool)

  datatype Outcome = Done | BadState | IsEmpty

  /** After what a group had sent before, it sent probes and goodbyes, but no announcement, and told no change. */
  ghost predicate NoAnnouncement(was: seq<Event>, log: seq<Event>) {
    |was| <= |log| && was == log[..|was|] && forall i :: |was| <= i < |log| ==> log[i].Probe? || log[i].Goodbye?
  }

  /** Timers and calls: the time event of an announcer, interfaces that come and go, a probe lost against another host,
      a record that was changed or added, another commit, and the end of the holdoff. */
  datatype Action =
    | Fire(now: Timeval, k: nat, i: nat)
    | Appear(now: Timeval, interface: Interface)
    | Disappear(now: Timeval, interface: Interface, goodbye: bool, remove: bool, duplicates: set<Entry>)
    | Lose(now: Timeval, k: nat, i: nat)
    | Change(now: Timeval, k: nat, i: nat)
    | Join(now: Timeval, flags: Flags, matching: set<nat>)
    | CommitAgain(now: Timeval, interfaces: seq<Interface>)
    | HoldoffOver(now: Timeval, interfaces: seq<Interface>)

  /** Nothing happens before what happened already. */
  predicate InOrder(xs: seq<Action>, clock: int) {
    && (forall i :: 0 <= i < |xs| ==> clock <= Micros(xs[i].now))
    && (forall i, j :: 0 <= i < j < |xs| ==> Micros(xs[i].now) <= Micros(xs[j].now))
  }

  class Entry {
    const flags: Flags
    /** The interfaces that the interface and protocol of the entry match. */
    const interfaces: set<nat>
    var dead: bool

    constructor (flags: Flags, interfaces: set<nat>)
      ensures this.flags == flags && this.interfaces == interfaces && !dead
    {
      this.flags, this.interfaces, dead := flags, interfaces, false;
    }

    predicate MustProbe() {
      flags.unique && !flags.noProbe
    }
  }

  class Announcer {
    const entry: Entry
    const interface: nat
    var state: State
    var nIteration: nat
    var secDelay: nat
    var timer: Timeout
    /** When probes were sent since probing started last, and announcements since announcing did. */
    ghost var probed: seq<Timeval>
    ghost var announced: seq<Timeval>

    constructor (e: Entry, i: nat)
      ensures entry == e && interface == i && timer.Off?
    {
      entry, interface := e, i;
      state, nIteration, secDelay, timer, probed, announced := Established, 0, 0, Off, [], [];
    }

    /** Probes are 250 ms apart, the first announcement comes 250 ms after the last probe, and the next ones come one,
        two and four seconds after the one before. */
    ghost predicate Spaced()
      reads this`probed, this`announced
    {
      && (forall i :: 0 < i < |probed| ==> Micros(probed[i - 1]) + 250000 <= Micros(probed[i]))
      && (entry.MustProbe() && announced != [] ==> |probed| == 3 && Micros(probed[2]) + 250000 <= Micros(announced[0]))
      && |announced| <= 4
      && (|announced| >= 2 ==> Micros(announced[0]) + 1000000 <= Micros(announced[1]))
      && (|announced| >= 3 ==> Micros(announced[1]) + 2000000 <= Micros(announced[2]))
      && (|announced| >= 4 ==> Micros(announced[2]) + 4000000 <= Micros(announced[3]))
    }

    /** The timer keeps the distance to what was sent last. */
    ghost predicate Patient()
      reads this
    {
      && (timer.Off? <==> state.Waiting? || state.Established?)
      && (state.Probing? && probed != [] ==>
            timer.jitter == 0 && Micros(timer.due) == Micros(probed[|probed| - 1]) + 250000)
      && (state.Announcing? && announced != [] ==>
            timer.jitter == 250 &&
            Micros(timer.due) == Micros(announced[|announced| - 1]) + secDelay * 500000)
      && (state.Established? || secDelay == match |announced| { case 0 => 1 case 1 => 2 case 2 => 4 case _ => 8 })
    }

    /** A timer runs exactly while there is something to send. A record that must be probed is waiting or
        announced only after three probes, and an announcer is done only after three announcements. */
    ghost predicate Consistent()
      reads this
    {
      && Patient() && Spaced()
      && (state.Probing? ==> entry.MustProbe() && 1 <= nIteration <= 4 && |probed| == nIteration - 1)
      && (entry.MustProbe() && !state.Probing? ==> |probed| == 3)
      && (state.Probing? || state.Waiting? ==> announced == [])
      && (state.Announcing? ==> nIteration <= 3 && |announced| <= nIteration <= |announced| + 1)
      && (state.Established? ==> |announced| >= 3 || entry.flags.noAnnounce)
    }

    /** The last of three probes was 250 ms ago. */
    ghost predicate Rested(clock: int)
      reads this`state, this`probed
    {
      entry.MustProbe() && !state.Probing? ==> |probed| == 3 && Micros(probed[2]) + 250000 <= clock
    }

    /** After the last probe: wait for the others of the group, or go on. */
    method ProbingOver(registering: bool, now: Timeval)
      requires Consistent() && state.Probing? && nIteration >= 4 && Micros(timer.due) <= Micros(now)
      modifies this`state, this`nIteration, this`timer, this`announced
      ensures if registering then state.Waiting? && timer.Off? && Consistent()
              else state.Announcing? && nIteration == 1 && announced == [] && secDelay == 1 && Spaced()
      ensures Rested(Micros(now))
    {
      if registering {
        state := Waiting;
      } else {
        state := Announcing;
        nIteration := 1;
        announced := [];
      }
      timer := Off;
    }

    /** A probe is sent, and the next step comes 250 ms later. */
    method OneProbeMore(now: Timeval)
      requires Consistent() && state.Probing? && nIteration < 4 && Micros(timer.due) <= Micros(now)
      modifies this`timer, this`nIteration, this`probed
      ensures Consistent() && probed == old(probed) + [now]
      ensures timer.At? && Micros(timer.due) == Micros(now) + 250000 && timer.jitter == 0
    {
      timer := ElapseTime(now, PROBE_INTERVAL_MSEC, 0);
      nIteration := nIteration + 1;
      probed := probed + [now];
    }

    /** What is sent is due within 250 ms. */
    ghost predicate DueFrom(now: Timeval)
      reads this`state, this`timer
    {
      state.Probing? || state.Announcing? ==>
        timer.At? && Micros(timer.due) == Micros(now) && timer.jitter == 250
    }

    /** The first announcement was sent, or is due within 250 ms. */
    ghost predicate StartedAt(immediately: bool, now: Timeval)
      reads this
    {
      if immediately then announced == [now] else announced == [] && state.Announcing? && DueFrom(now)
    }

    /** Probing starts over where it was not done with; what had been announced is announced again. */
    method StartAgain(now: Timeval)
      requires Consistent()
      modifies this
      ensures Consistent() && DueFrom(now)
      ensures match old(state)
              case Probing => state.Probing?
              case Waiting => if entry.flags.unique && !entry.flags.noProbe then state.Probing? else state.Waiting?
              case _ => if entry.flags.noAnnounce then state.Established? else state.Announcing?
      ensures !state.Probing? ==> probed == old(probed) && !old(state).Probing?
    {
      if state.Probing? || (state.Waiting? && entry.flags.unique && !entry.flags.noProbe) {
        state := Probing;
        probed := [];
      } else if state.Waiting? {
        state := Waiting;
      } else if entry.flags.noAnnounce {
        state := Established;
      } else {
        state := Announcing;
      }
      announced := [];
      nIteration, secDelay := 1, 1;
      if state.Probing? {
        timer := ElapseTime(now, 0, PROBE_JITTER_MSEC);
      } else if state.Announcing? {
        timer := ElapseTime(now, 0, ANNOUNCEMENT_JITTER_MSEC);
      } else {
        timer := Off;
      }
    }

    method Restart(registered: bool, now: Timeval)
      modifies this
      ensures Consistent() && DueFrom(now)
      ensures if entry.flags.unique && !entry.flags.noProbe then state.Probing?
              else if entry.flags.noAnnounce then state.Established?
              else if registered then state.Announcing?
              else state.Waiting?
    {
      var f := entry.flags;
      if f.unique && !f.noProbe {
        state := Probing;
      } else if !f.noAnnounce {
        if registered {
          state := Announcing;
        } else {
          state := Waiting;
        }
      } else {
        state := Established;
      }
      nIteration, secDelay := 1, 1;
      probed, announced := [], [];
      if state.Probing? {
        timer := ElapseTime(now, 0, PROBE_JITTER_MSEC);
      } else if state.Announcing? {
        timer := ElapseTime(now, 0, ANNOUNCEMENT_JITTER_MSEC);
      } else {
        timer := Off;
      }
    }
  }

  class Group {
    var state: GroupState
    var entries: seq<Entry>
    /** The announcers of the live entries. */
    var announcers: set<Announcer>
    var nProbing: int
    var nRegisterTry: nat
    var registerTime: Timeval
    var registerEvent: Option<Timeval>
    var establishedAt: Timeval
    var log: seq<Event>
    /** Probing announcers that were removed since the group was reset last. */
    ghost var leaked: nat
    /** The announcers that are probing. */
    ghost var probing: set<Announcer>
    /** The time it is. */
    ghost var clock: int

    /** The counter counts the probing announcers, and those that were removed while probing. */
    ghost predicate Counted()
      reads this`announcers, announcers`state, this`nProbing, this`leaked, this`probing
    {
      && nProbing == |probing| + leaked && probing <= announcers
      && forall a :: a in announcers ==> (a.state.Probing? <==> a in probing)
    }

    ghost predicate Owned()
      reads this`announcers, this`entries, set e | e in entries
    {
      && (forall a :: a in announcers ==> a.entry in entries && !a.entry.dead)
      && (forall a, b | a in announcers && b in announcers && a.entry == b.entry
        && a.interface == b.interface :: a == b)
    }

    /** How far announcers may be, by the state of their group and the time. */
    ghost predicate InStep(a: Announcer)
      reads this`state, this`clock, a`state, a`probed
    {
      && a.Rested(clock)
      && (state.Registering? ==> !a.state.Announcing? && (a.state.Established? ==> a.entry.flags.noAnnounce))
      && (state.Registered? ==> !a.state.Waiting?)
    }

    ghost predicate Sound()
      reads this, announcers, set e | e in entries
    {
      && Owned() && Counted()
      && (forall a :: a in announcers ==> a.Consistent() && InStep(a))
      && (state.Uncommitted? || state.Collision? ==> announcers == {} && nProbing == 0)
      && (registerEvent.Some? ==> state.Registering?)
    }

    /** A registering group whose holdoff is over waits for a probe, or for one that was removed. */
    ghost predicate Valid()
      reads this, announcers, set e | e in entries
    {
      Sound() && (state.Registering? && registerEvent.None? ==> nProbing > 0)
    }

    constructor ()
      ensures Valid() && state.Uncommitted? && entries == [] && log == [] && nRegisterTry == 0 && leaked == 0
      ensures registerTime == ZERO && clock == 0 && announcers == {}
    {
      state, entries, announcers, nProbing, nRegisterTry := Uncommitted, [], {}, 0, 0;
      registerTime, registerEvent, establishedAt, log, leaked, probing, clock := ZERO, None, ZERO, [], 0, {}, 0;
    }

    ghost method Tick(now: Timeval)
      requires Valid() && clock <= Micros(now)
      modifies this`clock
      ensures Valid() && clock == Micros(now)
    {
      hide Announcer.Consistent, Counted, Owned;
      clock := Micros(now);
    }

    lemma NoneProbing()
      requires Counted() && nProbing <= 0
      ensures leaked == 0 && probing == {} && forall a :: a in announcers ==> !a.state.Probing?
    {
      assert |probing| == 0;
    }

    // ---------------------------------------------------------------- state changes

    /** avahi_s_entry_group_change_state */
    method ChangeState(to: GroupState, now: Timeval)
      modifies this`state, this`nRegisterTry, this`registerEvent, this`establishedAt, this`log
      ensures state == to
      ensures registerEvent == (if old(state).Registering? && !to.Registering? then None else old(registerEvent))
      ensures nRegisterTry == if old(state).Registered? && !to.Registered?
              && Diff(now, old(establishedAt)) > 5000000 then 0
                              else old(nRegisterTry)
      ensures establishedAt == if old(state) != to && to.Registered? then now else old(establishedAt)
      ensures log == if old(state) == to then old(log) else old(log) + [Changed(to)]
    {
      if state == to {
        return;
      }
      if state.Registered? {
        if Diff(now, establishedAt) > 5000000 {
          nRegisterTry := 0;
        }
      } else if state.Registering? {
        registerEvent := None;
      }
      if to.Registered? {
        establishedAt := now;
      }
      state := to;
      log := log + [Changed(to)];
    }

    /** The announcing branch of next_state. */
    method SendAnnouncement(a: Announcer, now: Timeval)
      requires a.state.Announcing? && a.nIteration <= 3 && |a.announced| <= a.nIteration <= |a.announced| + 1
      requires a.Spaced() && a.Rested(Micros(now))
      requires a.secDelay == match |a.announced| { case 0 => 1 case 1 => 2 case 2 => 4 case _ => 8 }
      requires a.announced != [] ==> a.Patient() && Micros(a.timer.due) <= Micros(now)
      modifies a`state, a`nIteration, a`secDelay, a`timer, a`announced, this`log
      ensures a.Consistent() && a.state == if old(a.nIteration) == 3 then Established else Announcing
      ensures a.announced == old(a.announced) + [now]
      ensures log == old(log) + [Announcement(a.entry, a.interface)]
    {
      log := log + [Announcement(a.entry, a.interface)];
      a.announced := a.announced + [now];
      a.nIteration := a.nIteration + 1;
      if a.nIteration >= 4 {
        a.state := Established;
        a.timer := Off;
      } else {
        a.timer := ElapseTime(now, a.secDelay * 1000, ANNOUNCEMENT_JITTER_MSEC);
        if a.nIteration < 10 {
          a.secDelay := a.secDelay * 2;
        }
      }
    }

    /** A waiting announcer starts announcing: at once, or after a random delay. */
    method StartAnnouncing(a: Announcer, immediately: bool, now: Timeval)
      requires a.state.Waiting? && a.Consistent() && a.Rested(Micros(now))
      modifies a`state, a`nIteration, a`secDelay, a`timer, a`announced, this`log
      ensures a.Consistent() && a.state.Announcing? && a.Rested(Micros(now)) && a.StartedAt(immediately, now)
      ensures log == old(log) + if immediately then [Announcement(a.entry, a.interface)] else []
    {
      a.state := Announcing;
      if immediately {
        a.nIteration := 1;
        SendAnnouncement(a, now);
      } else {
        a.nIteration := 0;
        a.timer := ElapseTime(now, 0, ANNOUNCEMENT_JITTER_MSEC);
      }
    }

    method AnnounceWaiting(immediately: bool, now: Timeval)
      requires clock == Micros(now)
      requires forall a :: a in announcers ==> a.Consistent() && !a.state.Probing? && a.Rested(clock)
      modifies this`log, announcers
      ensures forall a :: a in announcers ==> a.Consistent() && a.Rested(clock)
      ensures forall a :: a in announcers ==> !a.state.Probing? && !a.state.Waiting?
      ensures forall a :: a in announcers && old(a.state).Waiting? ==> a.StartedAt(immediately, now)
      ensures old(log) <= log
      ensures immediately ==> forall a :: a in announcers && old(a.state).Waiting? ==> ToldSince(log, |old(log)|, a)
    {
      hide Announcer.Consistent, Announcer.Rested, Announcer.StartedAt, Announcer.DueFrom, Micros;
      var rest := announcers;
      while rest != {}
        modifies this`log, announcers
        invariant rest <= announcers
        invariant forall a :: a in announcers ==> a.Consistent() && !a.state.Probing? && a.Rested(clock)
        invariant forall a :: a in announcers && a.state.Waiting? ==> a in rest
        invariant forall a :: a in rest ==> unchanged(a)
        invariant forall a :: a in announcers && a !in rest && old(a.state).Waiting? ==> a.StartedAt(immediately, now)
        invariant old(log) <= log
        invariant immediately ==>
                    forall a :: a in announcers && a !in rest && old(a.state).Waiting? ==> ToldSince(log, |old(log)|, a)
        decreases |rest|
      {
        var a :| a in rest;
        rest := rest - {a};
        if a.state.Waiting? {
          ghost var before := log;
          StartAnnouncing(a, immediately, now);
          StillTold(before, log, |old(log)|);
          assert immediately ==> log[|before|] == Announcement(a.entry, a.interface);
        }
      }
    }

    /** The record was announced after what was sent before. */
    static ghost predicate ToldSince(log: seq<Event>, n: nat, a: Announcer) {
      exists i :: n <= i < |log| && log[i] == Announcement(a.entry, a.interface)
    }

    static lemma StillTold(was: seq<Event>, log: seq<Event>, n: nat)
      requires was <= log
      ensures forall a :: ToldSince(was, n, a) ==> ToldSince(log, n, a)
    {
      forall a | ToldSince(was, n, a)
        ensures ToldSince(log, n, a)
      {
        var i :| n <= i < |was| && was[i] == Announcement(a.entry, a.interface);
        assert log[i] == was[i];
      }
    }

    /** avahi_s_entry_group_check_probed: once nothing is counted as probing the group is established and
        all of its waiting announcers go on. */
    method CheckProbed(immediately: bool, now: Timeval)
      requires Sound() && clock == Micros(now)
      modifies this`state, this`nRegisterTry, this`registerEvent, this`establishedAt, this`log, announcers
      ensures Valid()
      ensures state == if old(state).Registering? && nProbing == 0 then Registered else old(state)
      ensures if state == old(state) then log == old(log) && registerEvent == old(registerEvent)
              else registerEvent.None?
      // its waiting announcers announce their record now, or within a quarter of a second
      ensures state != old(state) ==>
                forall a :: a in announcers && old(a.state).Waiting? ==>
                  a.StartedAt(immediately, now) && (immediately ==> ToldSince(log, |old(log)|, a))
    {
      hide Owned, Announcer.Consistent, Announcer.Rested, Micros, Diff;
      if !state.Registering? || nProbing > 0 {
        return;
      }
      NoneProbing();
      ChangeState(Registered, now);
      AnnounceWaiting(immediately, now);
    }

    /** The next of three probes. */
    method SendProbe(a: Announcer, now: Timeval)
      requires Valid() && a in announcers && a.state.Probing? && a.nIteration < 4
      requires a.timer.At? && Micros(a.timer.due) <= Micros(now)
      modifies this`log, a`timer, a`nIteration, a`probed
      ensures Valid() && log == old(log) + [Probe(a.entry, a.interface)]
      ensures a.probed == old(a.probed) + [now]
    {
      hide Owned, Counted, Announcer.Consistent;
      assert a.Consistent() && InStep(a);
      log := log + [Probe(a.entry, a.interface)];
      a.OneProbeMore(now);
    }

    /** After the last probe an announcer waits for the others of its group, or announces its record. */
    method ProbingDone(a: Announcer, now: Timeval)
      requires Sound() && a in announcers && a.state.Probing? && a.nIteration >= 4 && clock == Micros(now)
      requires a.timer.At? && Micros(a.timer.due) <= Micros(now)
      modifies this`nProbing, this`probing, this`log, a
      ensures Sound() && probing == old(probing) - {a} && old(nProbing) > 0 && nProbing == old(nProbing) - 1
      ensures if state.Registering? then a.state.Waiting? && a.timer.Off? && log == old(log)
              else !a.state.Waiting? && log == old(log) + [Announcement(a.entry, a.interface)] && a.announced == [now]
    {
      hide Owned, Announcer.Consistent, Announcer.Rested, Announcer.Spaced, Micros;
      assert a.Consistent() && |probing| > 0;
      nProbing := nProbing - 1;
      probing := probing - {a};
      a.ProbingOver(state.Registering?, now);
      if a.state.Announcing? {
        SendAnnouncement(a, now);
      }
    }

    /** The next of three announcements; the group is not registering. */
    method AnnounceAgain(a: Announcer, now: Timeval)
      requires Valid() && a in announcers && a.state.Announcing? && clock == Micros(now)
      requires a.timer.At? && Micros(a.timer.due) <= Micros(now)
      modifies a`state, a`nIteration, a`secDelay, a`timer, a`announced, this`log
      ensures Valid() && !state.Registering?
      ensures a.announced == old(a.announced) + [now] && log == old(log) + [Announcement(a.entry, a.interface)]
    {
      hide Owned;
      assert a.Consistent() && InStep(a);
      SendAnnouncement(a, now);
    }

    lemma OneProbe(was: seq<Event>, a: Announcer)
      ensures NoAnnouncement(was, was) && NoAnnouncement(was, was + [Probe(a.entry, a.interface)])
    {
    }

    lemma TimerRuns(a: Announcer)
      requires Sound() && a in announcers
      ensures a.state.Probing? || a.state.Announcing? ==> a.timer.At?
    {
      assert a.Consistent();
    }

    /** next_state: the time event of an announcer fired, or its group goes on. */
    method NextState(a: Announcer, now: Timeval)
      requires Sound() && a in announcers && (Valid() || a.state.Waiting?) && clock == Micros(now)
      requires a.timer.At? ==> Micros(a.timer.due) <= Micros(now)
      modifies this`state, this`nRegisterTry, this`registerEvent, this`establishedAt, this`log, this`nProbing,
               this`probing, announcers
      ensures Valid()
      ensures probing == old(probing) - if old(a.state.Probing? && a.nIteration >= 4) then {a} else {}
      ensures old(state).Registering? && state.Registering? ==> NoAnnouncement(old(log), log)
      // what is due is sent
      ensures old(a.state.Probing? && a.nIteration < 4) ==>
                a.probed == old(a.probed) + [now] && log == old(log) + [Probe(a.entry, a.interface)]
      ensures old(a.state).Announcing? ==>
                a.announced == old(a.announced) + [now] && log == old(log) + [Announcement(a.entry, a.interface)]
      ensures old(a.state.Probing? && a.nIteration >= 4) ==> !a.state.Probing?
      // the group is established only when no announcer of it is probing any more
      ensures state == old(state) || (old(state).Registering? && state.Registered? && probing == {} && nProbing == 0)
      ensures old(state).Registering? && state.Registered? ==> leaked == 0
      decreases match a.state { case Probing => 2 case Waiting => 1 case _ => 0 }
    {
      hide Owned, NoAnnouncement, InStep, Announcer.Consistent, Micros, Diff;
      OneProbe(log, a);
      TimerRuns(a);
      if a.state.Waiting? {
        CheckProbed(true, now);
        if state != old(state) {
          NoneProbing();
        }
      } else if a.state.Probing? {
        if a.nIteration >= 4 {
          ProbingDone(a, now);
          if a.state.Waiting? {
            NextState(a, now);
          }
        } else {
          SendProbe(a, now);
        }
      } else if a.state.Announcing? {
        AnnounceAgain(a, now);
      }
    }

    // ---------------------------------------------------------------- announcers come and go

    /** Everything is in order except for one announcer, which is not counted. */
    ghost predicate SoundBut(a: Announcer)
      reads this, announcers, set e | e in entries
    {
      && Owned() && a in announcers && nProbing == |probing| + leaked && probing <= announcers && a !in probing
      && (forall b :: b in announcers && b != a ==> b.Consistent() && InStep(b) && (b.state.Probing? <==> b in probing))
      && (state.Registering? || state.Registered?)
      && (registerEvent.Some? ==> state.Registering?)
    }

    /** An announcer is counted again if it is probing. */
    method Count(a: Announcer)
      requires SoundBut(a) && a.Consistent() && InStep(a)
      modifies this`nProbing, this`probing
      ensures Sound() && nProbing == old(nProbing) + if a.state.Probing? then 1 else 0
    {
      hide Owned, Announcer.Consistent, InStep;
      if a.state.Probing? {
        nProbing := nProbing + 1;
        probing := probing + {a};
      }
    }

    /** An announcer whose state is going to change is not counted. */
    method Discount(a: Announcer)
      requires Sound() && a in announcers
      modifies this`nProbing, this`probing
      ensures SoundBut(a) && nProbing == old(nProbing) - if a.state.Probing? then 1 else 0
    {
      hide Owned, Announcer.Consistent, InStep;
      if a.state.Probing? {
        nProbing := nProbing - 1;
        probing := probing - {a};
      }
    }

    /** go_to_initial_state */
    method GoToInitialState(a: Announcer, now: Timeval)
      requires SoundBut(a)
      modifies this`nProbing, this`probing, a
      ensures Sound() && a.DueFrom(now)
      ensures if a.entry.flags.unique && !a.entry.flags.noProbe then a.state.Probing?
              else if a.entry.flags.noAnnounce then a.state.Established?
              else if state.Registered? then a.state.Announcing?
              else a.state.Waiting?
      ensures nProbing == old(nProbing) + if a.state.Probing? then 1 else 0
    {
      hide Owned, Announcer.Consistent;
      a.Restart(state.Registered?, now);
      Count(a);
    }

    method GetAnnouncer(e: Entry, i: nat) returns (r: Option<Announcer>)
      ensures r.Some? ==> r.value in announcers && r.value.entry == e && r.value.interface == i
      ensures r.None? ==> forall a :: a in announcers ==> !(a.entry == e && a.interface == i)
    {
      var rest := announcers;
      while rest != {}
        invariant rest <= announcers
        invariant forall a :: a in announcers && a !in rest ==> !(a.entry == e && a.interface == i)
        decreases |rest|
      {
        var a :| a in rest;
        if a.entry == e && a.interface == i {
          return Some(a);
        }
        rest := rest - {a};
      }
      r := None;
    }

    /** new_announcer */
    method NewAnnouncer(e: Entry, i: Interface, now: Timeval)
      requires Sound() && e in entries && !e.dead
      modifies this`announcers, this`nProbing, this`probing
      ensures Sound() && nProbing >= old(nProbing) && old(announcers) <= announcers
              && fresh(announcers - old(announcers))
      ensures forall a :: a in announcers && a !in old(announcers) ==>
                a.entry == e && a.interface == i.id && i.id in e.interfaces && i.announcing
      ensures announcers != old(announcers) && e.MustProbe() ==> nProbing == old(nProbing) + 1
      // afterwards there is an announcer where there should be one
      ensures i.id in e.interfaces && i.announcing && (state.Registering? || state.Registered?) ==>
                exists a :: a in announcers && a.entry == e && a.interface == i.id
    {
      hide Announcer.Consistent;
      if i.id !in e.interfaces || !i.announcing || !(state.Registering? || state.Registered?) {
        return;
      }
      var r := GetAnnouncer(e, i.id);
      if r.Some? {
        return;
      }
      var a := new Announcer(e, i.id);
      announcers := announcers + {a};
      GoToInitialState(a, now);
    }

    /** The entry has an announcer on the interface if it belongs there. */
    ghost predicate Attended(e: Entry, i: Interface)
      reads this`announcers, e`dead
    {
      !e.dead && i.id in e.interfaces && i.announcing ==>
        exists a :: a in announcers && a.entry == e && a.interface == i.id
    }

    /** Announcers that are added take nothing away. */
    lemma StillAttended(e: Entry, i: Interface, was: set<Announcer>)
      requires was <= announcers
      requires !e.dead && i.id in e.interfaces && i.announcing ==>
                 exists a :: a in was && a.entry == e && a.interface == i.id
      ensures Attended(e, i)
    {
    }

    /** An announcer for one of the entries, on an interface that it belongs to. */
    ghost predicate BelongsTo(a: Announcer, i: Interface) {
      a.interface == i.id && i.id in a.entry.interfaces && i.announcing
    }

    /** avahi_announce_interface: every entry that belongs to the interface is announced there. */
    method AnnounceInterface(i: Interface, now: Timeval)
      requires Valid()
      modifies this`announcers, this`nProbing, this`probing
      ensures Valid() && old(announcers) <= announcers && fresh(announcers - old(announcers))
      ensures state.Registering? || state.Registered? ==> forall e :: e in entries ==> Attended(e, i)
      ensures forall a :: a in announcers && a !in old(announcers) ==> BelongsTo(a, i)
    {
      hide Sound, Attended;
      NotAnnouncing(i);
      if !i.announcing {
        return;
      }
      for k := 0 to |entries|
        invariant Valid() && old(announcers) <= announcers && fresh(announcers - old(announcers))
        invariant state.Registering? || state.Registered? ==> forall n :: 0 <= n < k ==> Attended(entries[n], i)
        invariant forall a :: a in announcers && a !in old(announcers) ==> BelongsTo(a, i)
      {
        AnnounceIfLive(entries[k], i, now);
      }
    }

    lemma NotAnnouncing(i: Interface)
      ensures !i.announcing ==> forall e :: e in entries ==> Attended(e, i)
    {
    }

    method AnnounceIfLive(e: Entry, i: Interface, now: Timeval)
      requires Sound() && e in entries
      modifies this`announcers, this`nProbing, this`probing
      ensures Sound() && nProbing >= old(nProbing) && old(announcers) <= announcers
              && fresh(announcers - old(announcers))
      ensures old(Valid()) ==> Valid()
      ensures state.Registering? || state.Registered? ==> Attended(e, i)
      ensures forall f, l :: f in entries && old(Attended(f, l)) ==> Attended(f, l)
      ensures forall a :: a in announcers && a !in old(announcers) ==> BelongsTo(a, i)
    {
      hide Owned, Counted, InStep, Announcer.Consistent;
      if !e.dead {
        NewAnnouncer(e, i, now);
      }
      forall f, l | f in entries && old(Attended(f, l))
        ensures Attended(f, l)
      {
        StillAttended(f, l, old(announcers));
      }
    }

    /** avahi_announce_group: every entry is announced on every interface that it belongs to. */
    method AnnounceGroup(interfaces: seq<Interface>, now: Timeval)
      requires Sound()
      modifies this`announcers, this`nProbing, this`probing
      ensures interfaces == [] ==> announcers == old(announcers) && nProbing == old(nProbing)
      ensures state.Registering? || state.Registered? ==>
                forall e, k :: e in entries && 0 <= k < |interfaces| ==> Attended(e, interfaces[k])
      ensures Sound() && nProbing >= old(nProbing) && old(announcers) <= announcers
              && fresh(announcers - old(announcers))
    {
      hide Sound, Attended;
      for k := 0 to |entries|
        invariant Sound() && nProbing >= old(nProbing) && old(announcers) <= announcers
        invariant interfaces == [] ==> announcers == old(announcers) && nProbing == old(nProbing)
        invariant fresh(announcers - old(announcers))
        invariant state.Registering? || state.Registered? ==>
                    forall n, j :: 0 <= n < k && 0 <= j < |interfaces| ==> Attended(entries[n], interfaces[j])
      {
        for j := 0 to |interfaces|
          invariant Sound() && nProbing >= old(nProbing) && old(announcers) <= announcers
          invariant interfaces == [] ==> announcers == old(announcers) && nProbing == old(nProbing)
          invariant fresh(announcers - old(announcers))
          invariant state.Registering? || state.Registered? ==>
                      forall n, l :: 0 <= n < k && 0 <= l < |interfaces| ==> Attended(entries[n], interfaces[l])
          invariant state.Registering? || state.Registered? ==>
                      forall l :: 0 <= l < j ==> Attended(entries[k], interfaces[l])
        {
          AnnounceIfLive(entries[k], interfaces[j], now);
        }
      }
    }

    /** avahi_entry_return_to_initial_state: a probe was lost against another host. */
    method ReturnToInitialState(e: Entry, i: nat, now: Timeval)
      requires Valid()
      modifies this`nProbing, this`probing, announcers
      ensures Valid()
      ensures forall a :: a in announcers ==>
                if a.entry == e && a.interface == i then
                  && a.DueFrom(now)
                  && if e.flags.unique && !e.flags.noProbe then a.state.Probing?
                     else if e.flags.noAnnounce then a.state.Established?
                     else if state.Registered? then a.state.Announcing?
                     else a.state.Waiting?
                else unchanged(a)
    {
      hide Announcer.Consistent;
      var r := GetAnnouncer(e, i);
      if r.None? {
        return;
      }
      var a := r.value;
      OnlyAnnouncer(a);
      ProbingMust(a);
      Discount(a);
      GoToInitialState(a, now);
    }

    lemma OnlyAnnouncer(a: Announcer)
      requires Owned() && a in announcers
      ensures forall b :: b in announcers && b.entry == a.entry && b.interface == a.interface ==> b == a
    {
    }

    lemma ProbingMust(a: Announcer)
      requires Sound() && a in announcers
      ensures a.state.Probing? ==> a.entry.MustProbe()
    {
      assert a.Consistent();
    }

    /** reannounce; there are no announcers while the group is not committed. */
    method Reannounce(a: Announcer, now: Timeval)
      requires Valid() && a in announcers
      modifies this`nProbing, this`probing, a
      ensures Valid() && a.DueFrom(now)
      // what was not done with probing is probed again, what had been announced is announced again
      ensures match old(a.state)
              case Probing => a.state.Probing?
              case Waiting => if a.entry.flags.unique && !a.entry.flags.noProbe then a.state.Probing?
                              else a.state.Waiting?
              case _ => if a.entry.flags.noAnnounce then a.state.Established? else a.state.Announcing?
    {
      hide Owned, Announcer.Consistent, Counted;
      assert a.Consistent() && InStep(a);
      Discount(a);
      a.StartAgain(now);
      Count(a);
    }

    /** remove_announcer; the counter is left as it is. */
    method RemoveAnnouncer(a: Announcer)
      requires Sound() && a in announcers
      modifies this`announcers, this`probing, this`leaked
      ensures Sound() && announcers == old(announcers) - {a} && probing == old(probing) - {a}
      ensures leaked == old(leaked) + if a.state.Probing? then 1 else 0
    {
      hide Announcer.Consistent;
      if a.state.Probing? {
        leaked := leaked + 1;
      }
      announcers := announcers - {a};
      probing := probing - {a};
    }

    /** avahi_entry_is_registered */
    ghost predicate IsRegistered(e: Entry, i: nat)
      reads this`announcers, announcers`state
    {
      exists a :: a in announcers && a.entry == e && a.interface == i && Speaks(a)
    }

    predicate Speaks(a: Announcer)
      reads a`state
    {
      a.state.Announcing? || a.state.Established? || (a.state.Waiting? && !a.entry.flags.unique)
    }

    /** An entry says goodbye on an interface if it is registered there and no other entry has the same record. */
    ghost predicate SaysGoodbye(e: Entry, i: nat, duplicates: set<Entry>)
      reads this`announcers, announcers`state, e`dead
    {
      !e.dead && i in e.interfaces && !e.flags.noAnnounce && IsRegistered(e, i) && e !in duplicates
    }

    /** The goodbyes of a list of entries, in its order. */
    ghost function Goodbyes(es: seq<Entry>, i: nat, duplicates: set<Entry>): seq<Event>
      reads this`announcers, announcers`state, (set e | e in es)`dead
    {
      if es == [] then []
      else
        var e := es[|es| - 1];
        Goodbyes(es[..|es| - 1], i, duplicates) + if SaysGoodbye(e, i, duplicates) then [Goodbye(e, i)] else []
    }

    lemma {:induction false} GoodbyesOnly(es: seq<Entry>, i: nat, duplicates: set<Entry>)
      ensures forall n :: 0 <= n < |Goodbyes(es, i, duplicates)| ==> Goodbyes(es, i, duplicates)[n].Goodbye?
    {
      if es != [] {
        GoodbyesOnly(es[..|es| - 1], i, duplicates);
      }
    }

    /** Goodbyes are said by the live entries of the interface that announce their record, unless the record stays with
        another entry, and are being announced or were, or wait for others without having been probed. */
    lemma {:induction false} GoodbyeSaid(es: seq<Entry>, i: nat, duplicates: set<Entry>, e: Entry)
      ensures Goodbye(e, i) in Goodbyes(es, i, duplicates) <==>
              && e in es && !e.dead && i in e.interfaces && !e.flags.noAnnounce && e !in duplicates
              && exists a :: a in announcers && a.entry == e && a.interface == i
                       && (a.state.Announcing? || a.state.Established? || (a.state.Waiting? && !e.flags.unique))
    {
      if es != [] {
        GoodbyeSaid(es[..|es| - 1], i, duplicates, e);
        assert es == es[..|es| - 1] + [es[|es| - 1]];
      }
    }

    /** send_goodbye_callback, for all entries; which of them share their record with others is known to the server. */
    method SendGoodbyes(i: nat, duplicates: set<Entry>)
      requires Valid()
      modifies this`log
      ensures Valid() && log == old(log) + Goodbyes(entries, i, duplicates)
    {
      hide Announcer.Consistent, Owned, Counted, InStep, Goodbyes;
      NoGoodbyes(i, duplicates);
      for k := 0 to |entries|
        invariant Valid() && log == old(log) + Goodbyes(entries[..k], i, duplicates)
      {
        var e := entries[k];
        GoodbyesMore(entries, k, i, duplicates);
        var registered := false;
        if !e.dead && i in e.interfaces && !e.flags.noAnnounce {
          var a := GetAnnouncer(e, i);
          registered := a.Some? && Speaks(a.value);
          OneAnnouncer(e, i, a);
        }
        if registered && e !in duplicates {
          log := log + [Goodbye(e, i)];
        }
      }
      assert entries[..|entries|] == entries;
    }

    lemma NoGoodbyes(i: nat, duplicates: set<Entry>)
      ensures entries[..0] == [] && Goodbyes(entries[..0], i, duplicates) == []
    {
    }

    lemma GoodbyesMore(es: seq<Entry>, k: nat, i: nat, duplicates: set<Entry>)
      requires k < |es|
      ensures Goodbyes(es[..k + 1], i, duplicates) == Goodbyes(es[..k], i, duplicates) +
              if SaysGoodbye(es[k], i, duplicates) then [Goodbye(es[k], i)] else []
    {
      hide SaysGoodbye;
      assert es[..k + 1][..k] == es[..k];
    }

    lemma OneAnnouncer(e: Entry, i: nat, a: Option<Announcer>)
      requires Owned()
      requires a.Some? ==> a.value in announcers && a.value.entry == e && a.value.interface == i
      requires a.None? ==> forall b :: b in announcers ==> !(b.entry == e && b.interface == i)
      ensures IsRegistered(e, i) <==> a.Some? && Speaks(a.value)
    {
    }

    /** avahi_goodbye_interface: goodbyes for what is registered on the interface, and its announcers go. */
    method GoodbyeInterface(i: Interface, goodbye: bool, remove: bool, duplicates: set<Entry>)
      requires Valid()
      modifies this`announcers, this`probing, this`leaked, this`log
      ensures Valid()
      ensures log == old(log) + if goodbye && i.announcing then old(Goodbyes(entries, i.id, duplicates)) else []
      ensures announcers == if remove then set a | a in old(announcers) && a.interface != i.id else old(announcers)
      ensures leaked - old(leaked) == |old(probing)| - |probing| >= 0
      ensures !remove ==> probing == old(probing)
      ensures NoAnnouncement(old(log), log)
    {
      hide Announcer.Consistent, Owned, Goodbyes;
      GoodbyesOnly(entries, i.id, duplicates);
      if goodbye && i.announcing {
        SendGoodbyes(i.id, duplicates);
      }
      if remove {
        RemoveAnnouncers(i.id);
      }
    }

    method RemoveAnnouncers(i: nat)
      requires Valid()
      modifies this`announcers, this`probing, this`leaked
      ensures Valid() && announcers == (set a | a in old(announcers) && a.interface != i)
      ensures leaked - old(leaked) == |old(probing)| - |probing| >= 0
    {
      hide Announcer.Consistent, Owned;
      var rest := announcers;
      while rest != {}
        invariant Valid() && announcers <= old(announcers) && rest <= announcers && leaked >= old(leaked)
        invariant forall a :: a in old(announcers) && (a in rest || a.interface != i) ==> a in announcers
        invariant forall a :: a in announcers && a !in rest ==> a.interface != i
        decreases |rest|
      {
        var a :| a in rest;
        rest := rest - {a};
        if a.interface == i {
          RemoveAnnouncer(a);
        }
      }
    }

    // ---------------------------------------------------------------- the life of a group

    method IsGroupEmpty() returns (r: bool)
      ensures r <==> forall e :: e in entries ==> e.dead
    {
      for k := 0 to |entries|
        invariant forall j :: 0 <= j < k ==> entries[j].dead
      {
        if !entries[k].dead {
          return false;
        }
      }
      r := true;
    }

    /** A new record; a group takes one only while it is not committed. */
    method AddEntry(flags: Flags, interfaces: set<nat>) returns (e: Option<Entry>)
      requires Valid()
      modifies this`entries
      ensures Valid() && e.Some? == (state.Uncommitted? || state.Collision?)
      ensures e.Some? ==> fresh(e.value) && e.value.flags == flags && e.value.interfaces == interfaces && !e.value.dead
      ensures e.Some? ==> entries == [e.value] + old(entries)
    {
      if state.Registering? || state.Registered? {
        return None;
      }
      var n := new Entry(flags, interfaces);
      entries := [n] + entries;
      e := Some(n);
    }

    /** entry_group_commit_real */
    method CommitReal(now: Timeval, interfaces: seq<Interface>)
      requires Sound() && !state.Registered? && registerEvent.None? && clock == Micros(now)
      modifies this, announcers
      ensures Valid() && clock == old(clock) && registerTime == now
      ensures (state.Registering? || state.Registered?) && registerEvent.None?
      ensures entries == old(entries) && leaked == old(leaked) && fresh(announcers - old(announcers))
      ensures interfaces == [] ==> announcers == old(announcers) && nProbing == old(nProbing)
      ensures old(state).Registering? && state.Registering? ==> log == old(log)
      // a group with probing announcers, or with some that were removed, is not established
      ensures state.Registered? <==> nProbing == 0
      ensures state.Registered? ==> probing == {} && leaked == 0
      // all entries are announced from now on
      ensures forall e, k :: e in entries && 0 <= k < |interfaces| ==> Attended(e, interfaces[k])
    {
      hide Announcer.Consistent;
      registerTime := now;
      ChangeState(Registering, now);
      AnnounceGroup(interfaces, now);
      CheckProbed(false, now);
      if state.Registered? {
        NoneProbing();
      }
    }

    /** avahi_s_entry_group_commit */
    method Commit(now: Timeval, interfaces: seq<Interface>) returns (r: Outcome)
      requires Valid() && clock == Micros(now)
      modifies this, announcers
      ensures Valid() && clock == old(clock) && entries == old(entries) && leaked == old(leaked)
      ensures fresh(announcers - old(announcers))
      ensures r.BadState? <==> old(state).Registering? || old(state).Registered?
      ensures r.IsEmpty? <==> !r.BadState? && forall e :: e in entries ==> e.dead
      ensures !r.Done? ==> state == old(state) && nRegisterTry == old(nRegisterTry) && log == old(log)
      // probing starts at once only when a second has passed since the last time, from the 15th try on twenty seconds
      ensures r.Done? ==> var wait := if old(nRegisterTry) >= 14 then 20000000 else 1000000;
                          var due := Add(old(registerTime), wait);
                          if Compare(due, now) > 0 then
                            state.Registering? && registerEvent == Some(due) && announcers == {}
                          else
                            && (state.Registering? || state.Registered?) && registerEvent.None? && registerTime == now
                            && forall e, k :: e in entries && 0 <= k < |interfaces| ==> Attended(e, interfaces[k])
    {
      hide Announcer.Consistent;
      if !state.Uncommitted? && !state.Collision? {
        return BadState;
      }
      var empty := IsGroupEmpty();
      if empty {
        return IsEmpty;
      }
      nRegisterTry := nRegisterTry + 1;
      registerTime := Add(registerTime, 1000 * if nRegisterTry >= RR_RATE_LIMIT_COUNT then RR_HOLDOFF_MSEC_RATE_LIMIT
        else RR_HOLDOFF_MSEC);
      if Compare(registerTime, now) <= 0 {
        CommitReal(now, interfaces);
      } else {
        ChangeState(Registering, now);
        registerEvent := Some(registerTime);
      }
      r := Done;
    }

    /** The holdoff is over. */
    method RegisterTimeEvent(now: Timeval, interfaces: seq<Interface>)
      requires Valid() && registerEvent.Some? && clock == Micros(now)
      modifies this, announcers
      ensures Valid() && clock == old(clock) && registerEvent.None? && leaked == old(leaked) && entries == old(entries)
      ensures fresh(announcers - old(announcers)) && (state.Registering? ==> log == old(log))
      ensures interfaces == [] ==> announcers == old(announcers) && nProbing == old(nProbing)
      ensures state == if nProbing == 0 then Registered else Registering
      ensures state.Registered? ==> leaked == 0
      ensures forall e, k :: e in entries && 0 <= k < |interfaces| ==> Attended(e, interfaces[k])
    {
      registerEvent := None;
      CommitReal(now, interfaces);
    }

    /** Every entry is withdrawn together with its announcers. */
    method KillEntries()
      requires Sound()
      modifies this`announcers, this`probing, this`leaked, (set e | e in entries)`dead
      ensures announcers == {} && (forall e :: e in entries ==> e.dead) && probing == {}
    {
      hide Announcer.Consistent;
      for k := 0 to |entries|
        invariant Sound() && forall j :: 0 <= j < k ==> entries[j].dead
      {
        var e := entries[k];
        if !e.dead {
          var rest := announcers;
          while rest != {}
            modifies this`announcers, this`probing, this`leaked
            invariant Sound() && rest <= announcers
            invariant forall a :: a in announcers && a !in rest ==> a.entry != e
            decreases |rest|
          {
            var a :| a in rest;
            rest := rest - {a};
            if a.entry == e {
              RemoveAnnouncer(a);
            }
          }
          e.dead := true;
        }
      }
      NoneLeft();
    }

    lemma NoneLeft()
      requires Owned() && forall e :: e in entries ==> e.dead
      ensures announcers == {}
    {
      if a :| a in announcers {
        assert false;
      }
    }

    /** avahi_s_entry_group_reset */
    method Reset(now: Timeval)
      requires Valid()
      modifies this, set e | e in entries
      ensures Valid() && state.Uncommitted? && announcers == {} && leaked == 0 && nProbing == 0
              && entries == old(entries) && forall e :: e in entries ==> e.dead
      ensures log == old(log) + if old(state).Uncommitted? then [] else [Changed(Uncommitted)]
    {
      KillEntries();
      nProbing := 0;
      leaked := 0;
      ChangeState(Uncommitted, now);
    }

    /** withdraw_entry, for an entry of a group: a conflict with another host. */
    method Withdraw(e: Entry, now: Timeval)
      requires Valid() && e in entries
      modifies this, set e | e in entries
      ensures Valid() && entries == old(entries)
      ensures if old(e.dead) then state == old(state) && log == old(log) && announcers == old(announcers)
              else && state.Collision? && announcers == {} && leaked == 0 && (forall f :: f in entries ==> f.dead)
                   && log == old(log) + if old(state).Collision? then [] else [Changed(Collision)]
    {
      if e.dead {
        return;
      }
      KillEntries();
      nProbing := 0;
      leaked := 0;
      ChangeState(Collision, now);
    }

    // ---------------------------------------------------------------- stuck groups

    /** What can happen to a group that is neither reset nor withdrawn. Announcers are named by the place of their
        entry and the interface; nothing happens where there is none. A time event fires no earlier than it is due. */
    method Act(x: Action)
      requires Valid() && clock <= Micros(x.now)
      modifies this, announcers
      ensures Valid() && clock == Micros(x.now) && fresh(announcers - old(announcers))
      ensures match x
              case Fire(now, k, i) =>
                forall a :: a in old(announcers) && old(IsAt(a, k, i)) && old(a.timer.At?)
                            && old(Micros(a.timer.due)) <= Micros(now) ==>
                  if old(a.state).Announcing? then a.announced == old(a.announced) + [now]
                  else if old(a.state).Probing? && old(a.nIteration) < 4 then a.probed == old(a.probed) + [now]
                  else old(a.state).Probing? ==> !a.state.Probing?
              case Appear(now, i) =>
                state.Registering? || state.Registered? ==> forall e :: e in entries ==> Attended(e, i)
              case Disappear(_, i, goodbye, remove, duplicates) =>
                && log == old(log) + (if goodbye && i.announcing then old(Goodbyes(entries, i.id, duplicates)) else [])
                && announcers == if remove then set a | a in old(announcers) && a.interface != i.id else old(announcers)
              case Lose(now, k, i) =>
                forall a :: a in announcers && IsAt(a, k, i) ==>
                  a.DueFrom(now) && a.state.Probing? == a.entry.MustProbe()
              case Change(now, k, i) => forall a :: a in announcers && IsAt(a, k, i) ==> a.DueFrom(now)
              case Join(_, flags, interfaces) =>
                old(state).Uncommitted? || old(state).Collision? ==> |entries| == |old(entries)| + 1
              case CommitAgain(_, _) =>
                (exists e :: e in entries && !e.dead) ==> state.Registering? || state.Registered?
              case HoldoffOver(_, _) => registerEvent.None?
      ensures old(Leaking()) ==> Leaking() && leaked >= old(leaked) && NoAnnouncement(old(log), log)
    {
      hide Sound, Goodbyes, NoAnnouncement, Announcer.DueFrom, Micros, Add;
      NothingSent(log);
      ValidSound();
      Tick(x.now);
      match x
      case Fire(now, k, i) =>
        var a := AnnouncerAt(k, i);
        if a.Some? && a.value.timer.At? && Micros(a.value.timer.due) <= Micros(now) {
          NextState(a.value, now);
        }
      case Appear(now, i) => AnnounceInterface(i, now);
      case Disappear(_, i, goodbye, remove, duplicates) => GoodbyeInterface(i, goodbye, remove, duplicates);
      case Lose(now, k, i) =>
        if k < |entries| {
          ReturnToInitialState(entries[k], i, now);
        }
      case Change(now, k, i) =>
        var a := AnnouncerAt(k, i);
        if a.Some? {
          Reannounce(a.value, now);
        }
      case Join(_, flags, interfaces) => var e := AddEntry(flags, interfaces);
      case CommitAgain(now, interfaces) => var r := Commit(now, interfaces);
      case HoldoffOver(now, interfaces) =>
        if registerEvent.Some? {
          RegisterTimeEvent(now, interfaces);
        }
    }

    lemma ValidSound()
      requires Valid()
      ensures Sound() && (registerEvent.Some? ==> state.Registering?)
    {
    }

    lemma NothingSent(was: seq<Event>)
      ensures NoAnnouncement(was, was)
    {
    }

    /** The announcer of the k-th entry on an interface. */
    ghost predicate IsAt(a: Announcer, k: nat, i: nat)
      reads this`entries
    {
      k < |entries| && a.entry == entries[k] && a.interface == i
    }

    method AnnouncerAt(k: nat, i: nat) returns (a: Option<Announcer>)
      requires Sound()
      ensures a.Some? ==> a.value in announcers && IsAt(a.value, k, i)
      ensures forall b :: b in announcers && IsAt(b, k, i) ==> a == Some(b)
    {
      hide Announcer.Consistent, Counted, InStep;
      a := None;
      if k < |entries| {
        a := GetAnnouncer(entries[k], i);
        if a.Some? {
          OnlyAnnouncer(a.value);
        }
      }
    }

    /** Whatever happens, in whatever order and however late, no announcer sends a probe or an announcement too
        early. */
    method Run(xs: seq<Action>)
      requires Valid() && InOrder(xs, clock)
      modifies this, announcers
      ensures Valid() && forall a :: a in announcers ==> a.Spaced()
      ensures clock == if xs == [] then old(clock) else Micros(xs[|xs| - 1].now)
    {
      hide Owned, Counted, InStep;
      for n := 0 to |xs|
        invariant Valid() && fresh(announcers - old(announcers))
        invariant clock == if n == 0 then old(clock) else Micros(xs[n - 1].now)
        invariant forall i :: n <= i < |xs| ==> clock <= Micros(xs[i].now)
      {
        Act(xs[n]);
      }
    }

    /** A group from which a probing announcer was removed while it registers. */
    ghost predicate Leaking()
      reads this`state, this`leaked
    {
      state.Registering? && leaked > 0
    }

    /** Such a group is never established, and none of its records announced, whatever happens, until it is reset or
        withdrawn. */
    method RunLeaking(xs: seq<Action>)
      requires Valid() && Leaking() && InOrder(xs, clock)
      modifies this, announcers
      ensures Valid() && Leaking() && nProbing > 0 && NoAnnouncement(old(log), log)
      ensures clock == if xs == [] then old(clock) else Micros(xs[|xs| - 1].now)
    {
      hide Owned, Counted, Announcer.Consistent, InStep;
      for n := 0 to |xs|
        invariant Valid() && Leaking() && NoAnnouncement(old(log), log) && fresh(announcers - old(announcers))
        invariant clock == if n == 0 then old(clock) else Micros(xs[n - 1].now)
        invariant forall i :: n <= i < |xs| ==> clock <= Micros(xs[i].now)
      {
        Act(xs[n]);
      }
      LeakingProbes();
    }

    lemma LeakingProbes()
      requires Valid() && Leaking()
      ensures nProbing > 0
    {
    }

    /** Where no probing announcer was removed, a registering group is not stuck: a timer that leads to its
        next step is running. */
    lemma NotStuck()
      requires Valid() && state.Registering? && leaked == 0
      ensures registerEvent.Some? || exists a :: a in announcers && a.state.Probing? && !a.timer.Off?
    {
      if registerEvent.None? {
        assert |probing| > 0;
        var a :| a in probing;
        assert a.Consistent();
      }
    }
  }

  /** A group with one record that must be probed, committed before its holdoff is over. */
  method Committed(f: Flags, i: nat) returns (g: Group, e: Entry)
    requires f.unique && !f.noProbe
    ensures fresh(g) && fresh(e) && g.Valid() && g.entries == [e] && e.MustProbe() && e.interfaces == {i} && !e.dead
    ensures g.state.Registering? && g.registerEvent.Some? && g.announcers == {} && g.nProbing == 0 && g.leaked == 0
    ensures g.clock == 0
  {
    hide Group.Valid, Announcer.Consistent, NoAnnouncement, Micros, Add, Compare, Diff;
    g := new Group();
    var n := g.AddEntry(f, {i});
    e := n.value;
    assert e in g.entries;
    FirstHoldoff();
    var r := g.Commit(g.registerTime, []);
    NoneCounted(g);
  }

  /** The holdoff of a first commit is not over at once. */
  lemma FirstHoldoff()
    ensures Compare(Add(ZERO, 1000000), ZERO) > 0 && Micros(ZERO) == 0
  {
  }

  lemma NoneCounted(g: Group)
    requires g.Valid() && g.announcers == {} && g.leaked == 0
    ensures g.nProbing == 0
  {
  }

  /** The counter can stay above the number of probing announcers: here the only one is removed while it probes,
      and when the holdoff is over the group waits for it although no announcer is left. */
  method StuckGroup(f: Flags, i: nat) returns (g: Group)
    requires f.unique && !f.noProbe
    ensures fresh(g) && g.Valid() && g.Leaking()
    ensures g.registerEvent.None? && g.announcers == {} && g.nProbing == 1 && g.leaked == 1
  {
    hide Announcer.Consistent, Group.Owned, Group.InStep, NoAnnouncement;
    var e;
    g, e := Committed(f, i);
    g.NewAnnouncer(e, Interface(i, true), ZERO);
    assert g.nProbing == 1 && |g.probing| == 1;
    g.GoodbyeInterface(Interface(i, true), false, true, {});
    assert g.announcers == {} && g.probing == {};
    g.Tick(Timeval(1, 0));
    g.RegisterTimeEvent(Timeval(1, 0), []);
  }
}
