/** Runs of the response scheduler in which a record is sent less than half a second after it was said. */
module ResponseRuns {
  import opened Utf8
  import opened Domain
  import opened Rr
  import opened Wire
  import opened RecordWire
  import opened Timeval
  import opened DnsPacket
  import opened PacketContents
  import opened Estimates
  import opened ResponseSched

  const MTU := 1500

  /** An address record with this TTL. */
  function Address(ttl: nat): Record {
    Record(Key([97], 1, TYPE_A), ttl, A([10, 0, 0, 1]))
  }

  lemma AddressProper(ttl: nat)
    requires ttl < 0x1_0000_0000
    ensures Proper(Address(ttl)) && !IsPattern(Address(ttl).key)
            && RecordClassOf(Address(ttl)) == RecordClassOf(Address(0))
    ensures HEADER_SIZE + |WithRecord(NOTHING, Address(ttl), false).body| <= Capacity(MTU)
  {
    LetterNames(97, 98);
    RecordWithin(HEADER_SIZE, map[], Address(ttl), false);
  }

  ghost function TheRecord(): RecordClass {
    AddressProper(0);
    RecordClassOf(Address(0))
  }

  /** A scheduler on a link that takes packets of the usual size; records go alone. */
  ghost predicate Ready(s: Scheduler)
    reads s, s.repr
  {
    s.Valid() && s.NoAux() && s.AuxProper() && s.mtu == MTU
  }

  /** The job says the record with this TTL. */
  ghost predicate Says(s: Scheduler, j: Job, ttl: nat)
    reads s`repr, j`record, j`flushCache
  {
    j in s.repr && j.about == TheRecord() && j.record == Address(ttl) && !j.flushCache
  }

  ghost predicate NoJob(s: Scheduler, state: JobState)
    reads s`repr, s.repr`state
  {
    forall j :: j in s.repr && j.state == state ==> j.about != TheRecord()
  }

  method Start() returns (s: Scheduler)
    ensures fresh(s) && s.repr == {} && Ready(s) && s.clock == 0 && s.log == [] && s.packets == []
  {
    s := new Scheduler(MTU, _ => []);
  }

  /** Nothing that was said lately says as much. */
  ghost predicate News(s: Scheduler, ttl: nat)
    reads s`repr, s.repr
  {
    forall h :: h in s.repr && h.state.Done? && h.about == TheRecord() ==>
      Overrides(ttl, false, h.record.ttl, h.flushCache)
  }

  lemma NotSuperfluous(s: Scheduler, ttl: nat, now: Timeval)
    requires News(s, ttl) && ttl < 0x1_0000_0000
    ensures Proper(Address(ttl)) && !s.KnownTo(Address(ttl), None, now) && !s.SaidLately(Address(ttl), false, now)
  {
    hide Proper, RecordClassOf, Overrides;
    AddressProper(ttl);
    AddressProper(0);
  }

  lemma NothingSaid(s: Scheduler, ttl: nat)
    requires NoJob(s, Done)
    ensures News(s, ttl)
  {
  }

  /** A response is asked for where none is scheduled. */
  method Ask(s: Scheduler, ttl: nat, immediately: bool, now: Timeval) returns (j: Job)
    requires Ready(s) && NoJob(s, Scheduled) && News(s, ttl) && s.clock <= Micros(now) && ttl < 0x1_0000_0000
    modifies s`jobs, s`history, s`suppressed, s`repr, s`clock, s`overridden, s`log
    modifies s.repr`delivery, s.repr`timeEvent, s.repr`flushCache, s.repr`querier, s.repr`record
    ensures Ready(s) && s.clock == Micros(now) && Sendings(s.log) == old(Sendings(s.log))
    ensures fresh(j) && Says(s, j, ttl) && j.state.Scheduled? && NoJob(s, Done)
    ensures j.timeEvent == Some(j.delivery) && j.delivery == if immediately then now
            else Add(Add(now, DEFER_MSEC * 1000), 0)
    ensures forall h :: h in s.repr ==> h in old(s.repr) || fresh(h)
    ensures old(s.log) <= s.log
  {
    hide Scheduler.Valid, Proper, RecordClassOf, Scheduler.NoAux, Scheduler.AuxProper, Overrides, Sendings, IsPattern,
         Scheduler.KnownTo, Scheduler.SaidLately, News;
    AddressProper(ttl);
    AddressProper(0);
    NotSuperfluous(s, ttl, now);
    var posted := s.Post(Address(ttl), false, None, immediately, now, 0);
    j := s.jobs[0];
    s.ScheduledJob(j);
  }

  /** Another response is asked for while one is scheduled. */
  method AskAgain(s: Scheduler, j: Job, ttl: nat, immediately: bool, now: Timeval)
    requires Ready(s) && j in s.repr && j.state.Scheduled? && j.about == TheRecord() && !j.flushCache && NoJob(s, Done)
    requires s.clock <= Micros(now) && ttl < 0x1_0000_0000
    modifies s`jobs, s`history, s`suppressed, s`repr, s`clock, s`overridden, s`log
    modifies s.repr`delivery, s.repr`timeEvent, s.repr`flushCache, s.repr`querier, s.repr`record
    ensures Ready(s) && s.clock == Micros(now) && Sendings(s.log) == old(Sendings(s.log))
    ensures Says(s, j, ttl) && j.state.Scheduled? && j.timeEvent == Some(j.delivery)
    ensures j.delivery == Earlier(if immediately then now else Add(Add(now, DEFER_MSEC * 1000), 0), old(j.delivery))
    ensures forall h :: h in s.repr ==> h in old(s.repr) || fresh(h)
    ensures old(s.log) <= s.log
  {
    hide Scheduler.Valid, Proper, RecordClassOf, Scheduler.NoAux, Scheduler.AuxProper, Overrides, Sendings, IsPattern,
         Scheduler.KnownTo, Scheduler.SaidLately, News;
    AddressProper(ttl);
    AddressProper(0);
    NothingSaid(s, ttl);
    NotSuperfluous(s, ttl, now);
    s.JobsOf();
    var posted := s.Post(Address(ttl), false, None, immediately, now, 0);
    s.JobsOf();
    s.ScheduledJob(j);
  }

  /** A record that was sent in a packet at this time. */
  ghost predicate SentIn(m: Message, ttl: nat) {
    WellFormedMessage(m) && m.items != [] && m.items[0] == Item(Address(ttl), false)
  }

  lemma Fits(s: Scheduler, ttl: nat)
    requires s.mtu == MTU && ttl < 0x1_0000_0000
    ensures Proper(Address(ttl)) && FitsAlone(Address(ttl), false, Capacity(s.mtu))
  {
    hide Proper, WithRecord, Capacity, RecordClassOf;
    AddressProper(ttl);
  }

  /** The time of a response has come. */
  method Fire(s: Scheduler, j: Job, ttl: nat, now: Timeval) returns (ghost m: Message)
    requires Ready(s) && Says(s, j, ttl) && j.state.Scheduled? && s.clock <= Micros(now) && ttl < 0x1_0000_0000
    requires j.timeEvent.Some? && Micros(j.timeEvent.value) <= Micros(now)
    modifies s`jobs, s`history, s`suppressed, s`repr, s`clock, s`overridden, s`log, s`seen, s`packets
    modifies s.repr`delivery, s.repr`timeEvent, s.repr`flushCache, s.repr`querier, s.repr`record, s.repr`state
    ensures Ready(s) && s.clock <= Micros(now) && Says(s, j, ttl) && j.state.Done? && s.repr == old(s.repr)
    ensures SentIn(m, ttl) && s.packets == old(s.packets) + [m.packet]
    ensures Sendings(s.log) == old(Sendings(s.log)) + InPacket(m.items, Micros(now))
    ensures old(s.log) <= s.log
  {
    hide Scheduler.Valid, Proper, RecordClassOf, Scheduler.NoAux, Scheduler.AuxProper, Sendings, InPacket,
         WellFormedMessage,
         Scheduler.Held, Scheduler.DoneJobs, RecordEstimate, WithRecord, Capacity, FitsAlone, TheRecord, ProperItems,
           Add;
    Fits(s, ttl);
    s.HeldBy(j);
    s.HeldByAll();
    ghost var sent := s.Elapse(j, now, 0);
    m := sent.value;
    s.HeldByAll();
    s.HeldBy(j);
  }

  /** A job in the history stands in the way of no response that says something else. */
  lemma OverriddenBy(s: Scheduler, j: Job, ttl: nat, other: nat)
    requires Ready(s) && Says(s, j, ttl) && j.state.Done? && Overrides(other, false, ttl, false)
    ensures NoJob(s, Scheduled) && News(s, other)
  {
    hide Scheduler.Valid, Scheduler.NoAux, Scheduler.AuxProper, Overrides, TheRecord;
    s.OnlyJob(j);
  }

  lemma Nothing()
    ensures Sendings([]) == []
  {
  }

  lemma EmptyNews(s: Scheduler, ttl: nat)
    requires s.repr == {}
    ensures NoJob(s, Scheduled) && News(s, ttl)
  {
  }

  // ---------------------------------------------------------------- the runs

  /** A record is sent with one TTL; a response with more than twice of it is asked for, and before that goes out one
      with the first TTL again. However short the time, the very same record is sent twice. */
  method SentTwice(low: nat, high: nat, t0: Timeval, t1: Timeval, t2: Timeval)
    returns (s: Scheduler, ghost first: Message, ghost second: Message)
    requires Overrides(high, false, low, false) && low < 0x1_0000_0000 && high < 0x1_0000_0000
    requires 0 <= Micros(t0) <= Micros(t1) <= Micros(t2)
    ensures Ready(s) && s.packets == [first.packet, second.packet] && SentIn(first, low) && SentIn(second, low)
    ensures Sendings(s.log) == InPacket(first.items, Micros(t0)) + InPacket(second.items, Micros(t2))
  {
    hide Ready, Sendings, InPacket, SentIn, TheRecord, ProperItems, Add, Address, Says, NoJob, News, Overrides, Compare;
    s := Start();
    Nothing();
    EmptyNews(s, low);
    var j := Ask(s, low, true, t0);
    first := Fire(s, j, low, t0);
    OverriddenBy(s, j, low, high);
    j := Ask(s, high, true, t1);
    SaysIt(s, j, high);
    AskAgain(s, j, low, true, t2);
    second := Fire(s, j, low, t2);
  }

  /** The note of a sighting: when, and with what TTL. */
  ghost predicate Seen(n: Note, ttl: nat, at: int) {
    n.Said? && !n.sent && n.about == TheRecord() && n.at == at && n.saidTtl == ttl
  }

  /** Another host says a record for which a response is scheduled. */
  method See(s: Scheduler, j: Job, ttl: nat, other: nat, now: Timeval)
    requires Ready(s) && Says(s, j, ttl) && j.state.Scheduled? && NoJob(s, Done) && s.clock <= Micros(now)
             && other < 0x1_0000_0000
    modifies s`jobs, s`history, s`suppressed, s`repr, s`clock, s`overridden, s`log, s`seen
    modifies s.repr`delivery, s.repr`timeEvent, s.repr`flushCache, s.repr`querier, s.repr`record, s.repr`state
    ensures Ready(s) && s.clock == Micros(now) && Sendings(s.log) == old(Sendings(s.log)) && Says(s, j, ttl)
    ensures old(s.log) < s.log && Seen(s.log[|old(s.log)|], other, Micros(now)) && s.repr == old(s.repr)
    ensures if Overrides(ttl, false, other, false) then
              j.state.Scheduled? && j.timeEvent == old(j.timeEvent) && j.delivery == old(j.delivery) && NoJob(s, Done)
            else j.state.Done?
  {
    hide Scheduler.Valid, Proper, RecordClassOf, Scheduler.NoAux, Scheduler.AuxProper, Overrides, Sendings, NoJob;
    AddressProper(other);
    AddressProper(0);
    s.Incoming(Address(other), false, now);
  }

  /** A record is seen while a response is scheduled that says something else, and before that goes out the record
      that was seen is asked for. It is sent, although it was said by another host a moment ago. */
  method SentAsSeen(low: nat, high: nat, t0: Timeval, t1: Timeval, t2: Timeval, t3: Timeval)
    returns (s: Scheduler, ghost m: Message)
    requires Overrides(high, false, low, false) && low < 0x1_0000_0000 && high < 0x1_0000_0000
    requires 0 <= Micros(t0) <= Micros(t1) <= Micros(t2) <= Micros(t3) && Micros(t0) + DEFER_MSEC * 1000 <= Micros(t3)
    ensures Ready(s) && s.packets == [m.packet] && SentIn(m, low)
    ensures (exists k :: 0 <= k < |s.log| && Seen(s.log[k], low, Micros(t1)))
            && Sendings(s.log) == InPacket(m.items, Micros(t3))
  {
    hide Ready, Sendings, InPacket, SentIn, TheRecord, ProperItems, Add, Address, Says, NoJob, News, Overrides,
         Compare, Seen;
    s := Start();
    Nothing();
    EmptyNews(s, high);
    var j := Ask(s, high, false, t0);
    DeferredUntil(t0);
    See(s, j, high, low, t1);
    SaysIt(s, j, high);
    AskAgain(s, j, low, true, t2);
    m := Fire(s, j, low, t3);
  }

  lemma DeferredUntil(t: Timeval)
    ensures Micros(Add(Add(t, DEFER_MSEC * 1000), 0)) == Micros(t) + DEFER_MSEC * 1000
  {
    AddMoves(t, DEFER_MSEC * 1000);
    AddMoves(Add(t, DEFER_MSEC * 1000), 0);
  }

  /** A record is seen that makes a scheduled response superfluous, and says more than it. What is remembered is the
      response: another one that says more than that is sent, although as much was said by another host a moment ago. */
  method SentAfterMore(low: nat, middle: nat, high: nat, t0: Timeval, t1: Timeval, t2: Timeval)
    returns (s: Scheduler, ghost m: Message)
    requires !Overrides(low, false, high, false) && Overrides(middle, false, low, false)
             && !Overrides(middle, false, high, false)
    requires low < 0x1_0000_0000 && middle < 0x1_0000_0000 && high < 0x1_0000_0000
    requires 0 <= Micros(t0) <= Micros(t1) <= Micros(t2)
    ensures Ready(s) && s.packets == [m.packet] && SentIn(m, middle)
    ensures (exists k :: 0 <= k < |s.log| && Seen(s.log[k], high, Micros(t1)))
            && Sendings(s.log) == InPacket(m.items, Micros(t2))
  {
    hide Ready, Sendings, InPacket, SentIn, TheRecord, ProperItems, Add, Address, Says, NoJob, News, Overrides,
         Compare, Seen;
    s := Start();
    Nothing();
    EmptyNews(s, low);
    var j := Ask(s, low, false, t0);
    See(s, j, low, high, t1);
    OverriddenBy(s, j, low, middle);
    j := Ask(s, middle, true, t2);
    m := Fire(s, j, middle, t2);
  }

  lemma SaysIt(s: Scheduler, j: Job, ttl: nat)
    requires Says(s, j, ttl)
    ensures j in s.repr && j.about == TheRecord() && !j.flushCache && j.record == Address(ttl)
  {
  }
}
