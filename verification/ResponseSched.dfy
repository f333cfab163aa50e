/** The response scheduler of avahi-core/response-sched.c: responses wait a little, are suppressed by what
    others say (sections 7.1 and 7.4 of RFC 6762), and are not repeated at once. */
module ResponseSched {
  import opened Utf8
  import opened Domain
  import opened Rr
  import opened RecordWire
  import opened Wire
  import opened Timeval
  import opened DnsPacket
  import opened PacketContents
  import opened Lists
  import opened Spacing
  import opened WireFormat
  import opened C = Cache

  const HISTORY_MSEC := 500
  const DEFER_MSEC := 20
  const JITTER_MSEC := 100
  const SUPPRESS_MSEC := 700
  const MSEC := 1000

  datatype JobState = Scheduled | Done | Suppressed

  predicate IsGoodbye(r: Record) {
    r.ttl == 0
  }

  /** What was last said about a record: when, with what TTL, and with the cache flush bit or not. */
  datatype Sighting = Sighting(at: int, ttl: nat, flush: bool)

  /** A new response says something that the old one did not. */
  predicate Overrides(ttl: nat, flush: bool, oldTtl: nat, oldFlush: bool) {
    (ttl == 0) != (oldTtl == 0) || oldTtl < ttl / 2 || (flush && !oldFlush)
  }

  /** It says that the record goes or that it is here again, or it has more than twice the TTL, or newly the cache
      flush bit. */
  lemma OverridesMeans(ttl: nat, flush: bool, oldTtl: nat, oldFlush: bool)
    ensures Overrides(ttl, flush, oldTtl, oldFlush) <==>
              (ttl == 0 && oldTtl > 0) || (ttl > 0 && oldTtl == 0) || ttl / 2 > oldTtl || (flush && !oldFlush)
  {
  }

  /** What happens to a record. It is said, by this host or another one, with one TTL and flush bit and remembered
      with these or others: a record that makes a scheduled response superfluous is remembered as that response.
      Or a response is asked for, or was pending already, that says something else than what is remembered. */
  datatype Note =
    | Said(about: RecordClass, at: int, ttl: nat, flush: bool, sent: bool, saidTtl: nat, saidFlush: bool)
    | Asked(about: RecordClass, at: int, ttl: nat, flush: bool, pending: bool)

  /** What was said last about each record, and about which records something else was asked for since. */
  datatype Knowledge = Knowledge(seen: map<RecordClass, Sighting>, overridden: set<RecordClass>)

  function Learn(k: Knowledge, n: Note): Knowledge {
    match n
    case Said(c, at, ttl, flush, _, _, _) => Knowledge(k.seen[c := Sighting(at, ttl, flush)], k.overridden - {c})
    case Asked(c, _, _, _, _) => Knowledge(k.seen, k.overridden + {c})
  }

  function After(log: seq<Note>): Knowledge {
    if log == [] then Knowledge(map[], {}) else Learn(After(log[..|log| - 1]), log[|log| - 1])
  }

  /** Less than half a second after something was said. */
  predicate Fresh(k: Knowledge, c: RecordClass, at: int) {
    c in k.seen && at < k.seen[c].at + HISTORY_MSEC * MSEC
  }

  /** A record is sent again within half a second only when something else was asked for, and that is only
      noted where it differs from what was said. */
  predicate JustifiedStep(k: Knowledge, n: Note) {
    match n
    case Said(c, at, _, _, sent, _, _) => sent && Fresh(k, c, at) ==> c in k.overridden
    case Asked(c, at, ttl, flush, _) =>
      Fresh(k, c, at) && c !in k.overridden ==> Overrides(ttl, flush, k.seen[c].ttl, k.seen[c].flush)
  }

  predicate Justified(log: seq<Note>) {
    log != [] ==> Justified(log[..|log| - 1]) && JustifiedStep(After(log[..|log| - 1]), log[|log| - 1])
  }

  /** The note of a request, if there is one to make. */
  function Request(r: Record, flush: bool, at: int, noted: bool): seq<Note>
    requires RecordWellFormed(r)
  {
    if noted then [Asked(RecordClassOf(r), at, r.ttl, flush, false)] else []
  }

  lemma NoRequest(log: seq<Note>, r: Record, flush: bool, at: int)
    requires RecordWellFormed(r)
    ensures log + Request(r, flush, at, false) == log
  {
  }

  lemma LearnMore(log: seq<Note>, n: Note)
    ensures After(log + [n]) == Learn(After(log), n)
    ensures Justified(log + [n]) <==> Justified(log) && JustifiedStep(After(log), n)
  {
    assert (log + [n])[..|log|] == log;
  }

  /** What was sent, according to a log. */
  function Sendings(log: seq<Note>): seq<Sending<RecordClass>> {
    if log == [] then []
    else
      var n := log[|log| - 1];
      Sendings(log[..|log| - 1]) + if n.Said? && n.sent then [Sending(n.about, n.at)] else []
  }

  lemma SendingsMore(log: seq<Note>, n: Note)
    ensures Sendings(log + [n]) == Sendings(log) + if n.Said? && n.sent then [Sending(n.about, n.at)] else []
  {
    assert (log + [n])[..|log|] == log;
  }

  predicate IsSaid(n: Note, c: RecordClass) {
    n.Said? && n.about == c
  }

  /** The j-th note is the last one, of the first i, that says something about the record. */
  ghost predicate SaidLastBefore(log: seq<Note>, c: RecordClass, j: nat, i: nat) {
    j < i <= |log| && IsSaid(log[j], c) && forall k :: j < k < i ==> !IsSaid(log[k], c)
  }

  lemma {:induction false} Remembering(log: seq<Note>, c: RecordClass, j: nat, i: nat)
    requires SaidLastBefore(log, c, j, i)
    ensures c in After(log[..i]).seen && After(log[..i]).seen[c] == Sighting(log[j].at, log[j].ttl, log[j].flush)
    decreases i
  {
    assert log[..i][..i - 1] == log[..i - 1];
    if j < i - 1 {
      assert !IsSaid(log[i - 1], c);
      Remembering(log, c, j, i - 1);
    }
  }

  /** The rule of the half second, over a whole run: when a record is sent less than half a second after it
      was said last, then in between a response was asked for that differs in its goodbye status, has more
      than twice the TTL, or newly has the cache flush bit. */
  lemma {:induction false} RepeatsAreJustified(log: seq<Note>, c: RecordClass, j: nat, i: nat)
    requires Justified(log) && Ascending(log) && i < |log| && SaidLastBefore(log, c, j, i)
    requires IsSaid(log[i], c) && log[i].sent && log[i].at < log[j].at + 500000
    ensures exists k :: j < k < i && log[k].Asked? && log[k].about == c
                        && ((log[k].ttl == 0) != (log[j].ttl == 0) || log[k].ttl / 2 > log[j].ttl
                            || (log[k].flush && !log[j].flush))
  {
    Remembering(log, c, j, i);
    JustifiedPrefix(log, i + 1);
    assert log[..i + 1][..i] == log[..i];
    forall k | j < k < i
      ensures log[k].at <= log[i].at
    {
      assert NoLater(log, k, i);
    }
    FirstAsked(log, c, j, i, log[i].at);
  }

  ghost predicate NoLater(log: seq<Note>, i: int, j: int) {
    0 <= i < j < |log| ==> log[i].at <= log[j].at
  }

  ghost predicate Ascending(log: seq<Note>) {
    forall i, j :: NoLater(log, i, j)
  }

  ghost predicate NoneAfter(log: seq<Note>, clock: int) {
    forall i :: 0 <= i < |log| ==> log[i].at <= clock
  }

  lemma AscendingAppend(log: seq<Note>, n: Note)
    requires Ascending(log) && NoneAfter(log, n.at)
    ensures Ascending(log + [n]) && NoneAfter(log + [n], n.at)
  {
    forall i, j
      ensures NoLater(log + [n], i, j)
    {
      assert NoLater(log, i, j);
    }
  }

  lemma {:induction false} JustifiedPrefix(log: seq<Note>, n: nat)
    requires Justified(log) && n <= |log|
    ensures Justified(log[..n])
    decreases |log|
  {
    if n == |log| {
      assert log[..n] == log;
    } else {
      JustifiedPrefix(log[..|log| - 1], n);
      assert log[..|log| - 1][..n] == log[..n];
    }
  }

  lemma {:induction false} FirstAsked(log: seq<Note>, c: RecordClass, j: nat, i: nat, at: int)
    requires SaidLastBefore(log, c, j, i) && Justified(log[..i]) && c in After(log[..i]).overridden
    requires at < log[j].at + HISTORY_MSEC * MSEC && forall k :: j < k < i ==> log[k].at <= at
    ensures exists k :: j < k < i && log[k].Asked? && log[k].about == c
                        && Overrides(log[k].ttl, log[k].flush, log[j].ttl, log[j].flush)
    decreases i
  {
    assert log[..i][..i - 1] == log[..i - 1];
    if j < i - 1 {
      assert !IsSaid(log[i - 1], c);
      Remembering(log, c, j, i - 1);
      if c in After(log[..i - 1]).overridden {
        FirstAsked(log, c, j, i - 1, at);
      } else {
        assert log[i - 1].Asked? && log[i - 1].about == c;
      }
    }
  }

  datatype Message = Message(items: seq<Item>, packet: Text)

  ghost predicate ProperItems(items: seq<Item>) {
    forall i :: 0 <= i < |items| ==> Proper(items[i].record)
  }

  /** The records of a packet that is sent at this time. */
  ghost function InPacket(items: seq<Item>, at: int): seq<Sending<RecordClass>>
    requires ProperItems(items)
  {
    seq(|items|, i requires 0 <= i < |items| => Sending(RecordClassOf(items[i].record), at))
  }

  lemma InPacketMore(before: seq<Sending<RecordClass>>, items: seq<Item>, r: Record, flush: bool, at: int)
    requires ProperItems(items) && Proper(r)
    ensures ProperItems(items + [Item(r, flush)])
    ensures before + InPacket(items, at) + [Sending(RecordClassOf(r), at)]
            == before + InPacket(items + [Item(r, flush)], at)
  {
    hide Proper, RecordClassOf;
  }

  lemma NothingInPacket(before: seq<Sending<RecordClass>>, at: int)
    ensures ProperItems([]) && before + InPacket([], at) == before
  {
  }

  /** A response with these records, that says how many there are. */
  ghost predicate WellFormedMessage(m: Message) {
    && ProperItems(m.items) && |m.packet| >= HEADER_SIZE
    && m.packet[HEADER_SIZE..] == WithRecords(NOTHING, m.items).body
    && U16At(m.packet, 2 * FIELD_ANCOUNT) == |m.items| % 0x10000
    && U16At(m.packet, 2 * FIELD_FLAGS) == FLAG_QR + FLAG_AA
  }

  /** What is in a response: the flags tell that it is one, and an authoritative one. */
  lemma ResponsePacket(m: Message)
    requires WellFormedMessage(m)
    ensures |m.packet| >= 12 && Pair(m.packet, 2) == 0x8400 && Pair(m.packet, 6) == |m.items| % 65536
    ensures ProperItems(m.items) && m.packet[12..] == WithRecords(NOTHING, m.items).body
  {
    hide ProperItems, WithRecords, U16At, Pair;
    HeaderLayout(m.packet);
  }

  lemma OneMoreRecord(items: seq<Item>, r: Record, flush: bool)
    requires ProperItems(items) && Proper(r)
    ensures ProperItems(items + [Item(r, flush)])
    ensures WithRecords(NOTHING, items + [Item(r, flush)]) == WithRecord(WithRecords(NOTHING, items), r, flush)
  {
    hide Proper, WithRecord;
    assert (items + [Item(r, flush)])[..|items|] == items;
  }

  lemma HalfASecond(now: Timeval, past: Timeval)
    requires TruncDiv(Diff(now, past), MSEC) > HISTORY_MSEC
    ensures Micros(now) >= Micros(past) + HISTORY_MSEC * MSEC
  {
    DiffIsDistance(now, past);
  }

  class Job {
    ghost const about: RecordClass
    var record: Record
    var state: JobState
    var delivery: Timeval
    var timeEvent: Option<Timeval>
    var flushCache: bool
    var querier: Option<Address>

    constructor (r: Record, state: JobState, flush: bool, querier: Option<Address>, delivery: Timeval, expiry: Timeval)
      requires Proper(r)
      ensures record == r && about == RecordClassOf(r) && Holds() && this.state == state && flushCache == flush
      ensures this.querier == querier && this.delivery == delivery && timeEvent == Some(expiry)
    {
      record, about, this.state, flushCache := r, RecordClassOf(r), state, flush;
      this.querier, this.delivery, timeEvent := querier, delivery, Some(expiry);
    }

    ghost predicate Holds()
      reads this`record
    {
      Proper(record) && RecordClassOf(record) == about
    }

    lemma StandsFor(r: Record)
      requires record == r && Proper(r) && RecordClassOf(r) == about
      ensures Holds()
    {
    }
  }

  class Scheduler {
    const mtu: nat
    /** The records that go along with a record, with their cache flush bits. */
    const aux: Record -> seq<Item>
    var jobs: seq<Job>
    var history: seq<Job>
    var suppressed: seq<Job>
    /** The packets handed to the interface. */
    var packets: seq<Text>
    ghost var repr: set<Job>
    /** What was last sent or seen about each record; for which records something else was asked for since;
        and the last reading of the clock. */
    ghost var seen: map<RecordClass, Sighting>
    ghost var overridden: set<RecordClass>
    ghost var clock: int
    ghost var log: seq<Note>

    /** Each job is in the list that its state names, once. */
    ghost predicate Listed()
      reads this`jobs, this`history, this`suppressed, this`repr, repr`state
    {
      && NoDuplicates(jobs) && NoDuplicates(history) && NoDuplicates(suppressed)
      && (forall j :: j in jobs ==> j in repr && j.state.Scheduled?)
      && (forall j :: j in history ==> j in repr && j.state.Done?)
      && (forall j :: j in suppressed ==> j in repr && j.state.Suppressed?)
      && (forall j :: j in repr ==> if j.state.Scheduled? then j in jobs else if j.state.Done? then j in history
        else j in suppressed)
    }

    /** One job for each record that is scheduled or was sent; one suppressed job for each record and querier. */
    ghost predicate OneJobEach()
      reads this`repr, repr`state, repr`querier
    {
      OneEach(repr)
    }

    static ghost predicate OneEach(s: set<Job>)
      reads s`state, s`querier
    {
      && (forall a, b | a in s && b in s && a.about == b.about && !a.state.Suppressed?
        && !b.state.Suppressed? :: a == b)
      && (forall a, b | a in s && b in s && a.about == b.about && a.state.Suppressed? && b.state.Suppressed?
                        && a.querier == b.querier :: a == b)
    }

    /** A job for which there is none like it. */
    static ghost predicate Unlike(s: set<Job>, about: RecordClass, state: JobState, querier: Option<Address>)
      reads s`state, s`querier
    {
      forall h :: h in s && h.about == about && h.state.Suppressed? == state.Suppressed? ==>
        state.Suppressed? && h.querier != querier
    }

    lemma OneMore(s: set<Job>, j: Job)
      requires OneEach(s) && Unlike(s, j.about, j.state, j.querier)
      ensures OneEach(s + {j})
    {
    }

    ghost predicate Timed(j: Job)
      reads j`state, j`timeEvent, j`delivery, j`querier
    {
      j.timeEvent.Some? && TimedSo(j.state, j.delivery, j.timeEvent.value, j.querier)
    }

    static ghost predicate TimedSo(state: JobState, delivery: Timeval, expiry: Timeval, querier: Option<Address>) {
      match state
      case Scheduled => expiry == delivery
      case Done => Micros(expiry) == Micros(delivery) + HISTORY_MSEC * MSEC
      case Suppressed => querier.Some? && Micros(expiry) == Micros(delivery) + SUPPRESS_MSEC * MSEC
    }

    ghost predicate Remembered(c: RecordClass, j: Job)
      reads j`state, j`delivery, j`record, j`flushCache, this`repr, this`seen
    {
      && j in repr && j.state.Done? && j.about == c && c in seen
      && Micros(j.delivery) >= seen[c].at && j.record.ttl == seen[c].ttl && j.flushCache == seen[c].flush
    }

    /** What was said within the last half second is remembered, unless something else was asked for since. */
    ghost predicate Spaced(c: RecordClass)
      requires c in seen
      reads this`repr, this`seen, this`overridden, this`clock, repr
    {
      && seen[c].at <= clock
      && (clock >= seen[c].at + HISTORY_MSEC * MSEC || c in overridden || exists j :: j in repr && Remembered(c, j))
    }

    ghost predicate Logged()
      reads this`log, this`seen, this`overridden, this`clock
    {
      Justified(log) && After(log) == Knowledge(seen, overridden) && Ascending(log) && NoneAfter(log, clock)
    }

    ghost predicate Valid()
      reads this`jobs, this`history, this`suppressed, this`repr, this`seen, this`overridden, this`clock, this`log, repr
    {
      && Logged() && Listed() && OneJobEach()
      && (forall j :: j in repr ==> j.Holds() && Timed(j))
      && (forall c | c in seen :: Spaced(c))
    }

    /** Everything but what is remembered about one record. */
    ghost predicate ValidBut(c: RecordClass)
      reads this`jobs, this`history, this`suppressed, this`repr, this`seen, this`overridden, this`clock, this`log, repr
    {
      && Logged() && Listed() && OneJobEach()
      && (forall j :: j in repr ==> j.Holds() && Timed(j))
      && (forall d | d in seen && d != c :: Spaced(d))
    }

    constructor (mtu: nat, aux: Record -> seq<Item>)
      ensures Valid() && jobs == [] && history == [] && suppressed == [] && packets == [] && seen == map[]
      ensures this.mtu == mtu && this.aux == aux && repr == {} && log == [] && clock == 0
    {
      this.mtu, this.aux := mtu, aux;
      jobs, history, suppressed, packets := [], [], [], [];
      repr, seen, overridden, clock, log := {}, map[], {}, 0, [];
    }

    // ---------------------------------------------------------------- lists of jobs

    /** job_new, and what every caller fills in. */
    method JobNew(r: Record, state: JobState, flush: bool, querier: Option<Address>, delivery: Timeval, expiry: Timeval)
      returns (j: Job)
      requires Valid() && Proper(r) && Unlike(repr, RecordClassOf(r), state, querier)
      requires TimedSo(state, delivery, expiry, querier)
      modifies this`jobs, this`history, this`suppressed, this`repr
      ensures Valid() && repr == old(repr) + {j} && fresh(j) && j.record == r
      ensures j.about == RecordClassOf(r) && j.state == state
      ensures j.flushCache == flush && j.querier == querier && j.delivery == delivery && j.timeEvent == Some(expiry)
      ensures jobs == if state.Scheduled? then [j] + old(jobs) else old(jobs)
      ensures history == if state.Done? then [j] + old(history) else old(history)
      ensures suppressed == if state.Suppressed? then [j] + old(suppressed) else old(suppressed)
    {
      hide RecordTyped, RecordValid, RecordWellFormed, RecordClassOf, OneEach, Unlike, Logged, Timed, Job.Holds, Listed;
      j := new Job(r, state, flush, querier, delivery, expiry);
      OneMore(repr, j);
      ListJob(j);
      NewTimed(j);
      forall c | c in seen
        ensures Spaced(c)
      {
        assert old(Spaced(c));
        if clock < seen[c].at + HISTORY_MSEC * MSEC && c !in overridden {
          var h :| h in old(repr) && old(Remembered(c, h));
          assert Remembered(c, h);
        }
      }
    }

    /** A job is put into the list that its state names. */
    method ListJob(j: Job)
      requires Listed() && j !in repr
      modifies this`jobs, this`history, this`suppressed, this`repr
      ensures Listed() && repr == old(repr) + {j}
      ensures jobs == if j.state.Scheduled? then [j] + old(jobs) else old(jobs)
      ensures history == if j.state.Done? then [j] + old(history) else old(history)
      ensures suppressed == if j.state.Suppressed? then [j] + old(suppressed) else old(suppressed)
    {
      repr := repr + {j};
      if j.state.Scheduled? {
        NoDuplicatesPrepend(j, jobs);
        jobs := [j] + jobs;
      } else if j.state.Done? {
        NoDuplicatesPrepend(j, history);
        history := [j] + history;
      } else {
        NoDuplicatesPrepend(j, suppressed);
        suppressed := [j] + suppressed;
      }
    }

    lemma NewTimed(j: Job)
      requires j.timeEvent.Some? && TimedSo(j.state, j.delivery, j.timeEvent.value, j.querier)
      ensures Timed(j)
    {
    }

    /** job_free */
    method JobFree(j: Job)
      requires Listed() && j in repr
      modifies this`jobs, this`history, this`suppressed, this`repr
      ensures Listed() && repr == old(repr) - {j}
      ensures |jobs| + |history| + |suppressed| == |old(jobs)| + |old(history)| + |old(suppressed)| - 1
      ensures jobs == if j.state.Scheduled? then Without(old(jobs), j) else old(jobs)
      ensures history == if j.state.Done? then Without(old(history), j) else old(history)
      ensures suppressed == if j.state.Suppressed? then Without(old(suppressed), j) else old(suppressed)
    {
      if j.state.Scheduled? {
        NoDuplicatesWithout(jobs, j);
        jobs := Without(jobs, j);
      } else if j.state.Done? {
        NoDuplicatesWithout(history, j);
        history := Without(history, j);
      } else {
        NoDuplicatesWithout(suppressed, j);
        suppressed := Without(suppressed, j);
      }
      repr := repr - {j};
    }

    /** job_mark_done */
    method JobMarkDone(j: Job, now: Timeval)
      requires Listed() && j in repr && j.state.Scheduled?
      modifies this`jobs, this`history, j`state, j`timeEvent, j`delivery
      ensures Listed() && j.state.Done? && Timed(j) && j.delivery == now && |jobs| == |old(jobs)| - 1
      ensures j.timeEvent.Some? && Micros(j.timeEvent.value) == Micros(now) + 500000
      ensures old(OneJobEach()) ==> OneJobEach()
      ensures jobs == Without(old(jobs), j) && history == [j] + old(history)
    {
      NoDuplicatesWithout(jobs, j);
      NoDuplicatesPrepend(j, history);
      jobs := Without(jobs, j);
      history := [j] + history;
      j.state := Done;
      AddMoves(now, HISTORY_MSEC * MSEC);
      j.timeEvent := Some(Add(now, HISTORY_MSEC * MSEC));
      j.delivery := now;
    }

    // ---------------------------------------------------------------- what each job is good for

    lemma JobsOf()
      requires Valid()
      ensures forall j :: j in jobs ==> j in repr && j.state.Scheduled? && j.Holds()
      ensures forall j :: j in history ==> j in repr && j.state.Done? && j.Holds()
      ensures forall j :: j in suppressed ==> j in repr && j.state.Suppressed? && j.Holds() && j.querier.Some?
      ensures forall j :: j in repr ==> if j.state.Scheduled? then j in jobs else if j.state.Done? then j in history
              else j in suppressed
    {
      hide OneJobEach, Spaced, Job.Holds;
      forall j | j in suppressed
        ensures j.querier.Some?
      {
        assert Timed(j);
      }
    }

    lemma OnlyJob(j: Job)
      requires Valid() && j in repr
      ensures forall b :: b in repr && b.about == j.about && !j.state.Suppressed? && !b.state.Suppressed? ==> b == j
      ensures forall b :: b in repr && b.about == j.about && j.state.Suppressed? && b.state.Suppressed? ==>
                b.querier == j.querier ==> b == j
    {
      hide Listed, Timed, Spaced, Job.Holds;
    }

    method SameRecord(j: Job, r: Record) returns (same: bool)
      requires j.Holds() && Proper(r)
      ensures same <==> j.about == RecordClassOf(r)
    {
      hide RecordTyped, RecordValid, RecordClassOf;
      same := RecordEqualNoTtl(j.record, r);
    }

    /** The clock only goes forward. */
    ghost method Tick(now: Timeval)
      requires Valid() && clock <= Micros(now)
      modifies this`clock
      ensures Valid() && clock == Micros(now)
    {
      hide Listed, OneJobEach, Timed, Job.Holds;
      clock := Micros(now);
      forall c | c in seen
        ensures Spaced(c)
      {
        assert old(Spaced(c));
        if clock < seen[c].at + HISTORY_MSEC * MSEC && c !in overridden {
          var h :| h in repr && old(Remembered(c, h));
          assert Remembered(c, h);
        }
      }
    }

    /** A job is given up: one in the history only when its half second is over, or when something else is
        asked for. */
    method Drop(j: Job)
      requires Valid() && j in repr
      requires j.state.Done? ==> j.about in overridden || clock >= Micros(j.delivery) + HISTORY_MSEC * MSEC
      modifies this`jobs, this`history, this`suppressed, this`repr
      ensures Valid() && repr == old(repr) - {j}
      ensures jobs == if j.state.Scheduled? then Without(old(jobs), j) else old(jobs)
      ensures history == if j.state.Done? then Without(old(history), j) else old(history)
      ensures suppressed == if j.state.Suppressed? then Without(old(suppressed), j) else old(suppressed)
    {
      hide Listed, Timed, Job.Holds, Logged, OneEach, Without;
      Fewer(repr, repr - {j});
      JobFree(j);
      forall c | c in seen
        ensures Spaced(c)
      {
        assert old(Spaced(c));
        if clock < seen[c].at + HISTORY_MSEC * MSEC && c !in overridden {
          var h :| h in old(repr) && old(Remembered(c, h));
          assert Remembered(c, h);
        }
      }
    }

    /** A response is asked for that differs from what is remembered. */
    ghost method NoteOverride(c: RecordClass, ttl: nat, flush: bool)
      requires Valid()
      requires c in seen && c !in overridden && clock < seen[c].at + HISTORY_MSEC * MSEC ==>
                 Overrides(ttl, flush, seen[c].ttl, seen[c].flush)
      modifies this`overridden, this`log
      ensures Valid() && overridden == old(overridden) + {c} && log == old(log) + [Asked(c, clock, ttl, flush, false)]
    {
      hide Listed, Timed, OneJobEach, Job.Holds, Overrides;
      LearnMore(log, Asked(c, clock, ttl, flush, false));
      AscendingAppend(log, Asked(c, clock, ttl, flush, false));
      log := log + [Asked(c, clock, ttl, flush, false)];
      overridden := overridden + {c};
      forall d | d in seen
        ensures Spaced(d)
      {
        assert old(Spaced(d));
        if clock < seen[d].at + HISTORY_MSEC * MSEC && d !in overridden {
          var h :| h in repr && old(Remembered(d, h));
          assert Remembered(d, h);
        }
      }
    }

    /** The record of a job in the history was said now. */
    ghost method NoteSaid(j: Job, sent: bool, ttl: nat, flush: bool)
      requires ValidBut(j.about) && j in repr && j.state.Done? && Micros(j.delivery) == clock
      requires sent && j.about in seen && clock < seen[j.about].at + HISTORY_MSEC * MSEC ==> j.about in overridden
      modifies this`seen, this`overridden, this`log
      ensures Valid() && j.about in seen && seen[j.about] == Sighting(clock, j.record.ttl, j.flushCache)
      ensures overridden == old(overridden) - {j.about}
      ensures seen == old(seen)[j.about := Sighting(clock, j.record.ttl, j.flushCache)]
      ensures log == old(log) + [Said(j.about, clock, j.record.ttl, j.flushCache, sent, ttl, flush)]
    {
      hide Listed, Timed, OneJobEach, Job.Holds;
      var n := Said(j.about, clock, j.record.ttl, j.flushCache, sent, ttl, flush);
      LearnMore(log, n);
      AscendingAppend(log, n);
      log := log + [n];
      seen := seen[j.about := Sighting(clock, j.record.ttl, j.flushCache)];
      overridden := overridden - {j.about};
      forall c | c in seen
        ensures Spaced(c)
      {
        if c == j.about {
          assert Remembered(c, j);
        } else {
          assert c in old(seen) && old(Spaced(c));
          if clock < seen[c].at + HISTORY_MSEC * MSEC && c !in overridden {
            var h :| h in repr && old(Remembered(c, h));
            assert Remembered(c, h);
          }
        }
      }
    }

    /** A record was seen, but the response that is scheduled for it says something else and stays. */
    ghost method NoteIgnored(j: Job, ttl: nat, flush: bool)
      requires Valid() && j in repr && j.state.Scheduled? && Overrides(j.record.ttl, j.flushCache, ttl, flush)
      modifies this`seen, this`overridden, this`log
      ensures Valid() && seen == old(seen)[j.about := Sighting(clock, ttl, flush)]
              && overridden == old(overridden) + {j.about}
      ensures log == old(log) + [Said(j.about, clock, ttl, flush, false, ttl, flush)]
                     + [Asked(j.about, clock, j.record.ttl, j.flushCache, true)]
    {
      hide Listed, Timed, OneJobEach, Job.Holds, Overrides;
      var n, o := Said(j.about, clock, ttl, flush, false, ttl, flush),
        Asked(j.about, clock, j.record.ttl, j.flushCache, true);
      LearnMore(log, n);
      AscendingAppend(log, n);
      LearnMore(log + [n], o);
      AscendingAppend(log + [n], o);
      log := log + [n] + [o];
      seen := seen[j.about := Sighting(clock, ttl, flush)];
      overridden := overridden + {j.about};
      forall c | c in seen
        ensures Spaced(c)
      {
        assert c != j.about ==> c in old(seen) && old(Spaced(c));
        if c != j.about && clock < seen[c].at + HISTORY_MSEC * MSEC && c !in overridden {
          var h :| h in repr && old(Remembered(c, h));
          assert Remembered(c, h);
        }
      }
    }

    /** A scheduled job is done. While it was scheduled nothing was remembered about its record, so what was
        said about it is half a second ago, or something else was asked for since. */
    method MarkDone(j: Job, now: Timeval)
      requires Valid() && j in repr && j.state.Scheduled? && clock <= Micros(now)
      modifies this`jobs, this`history, this`clock, j`state, j`timeEvent, j`delivery
      ensures Valid() && clock == Micros(now) && j.state.Done? && j.delivery == now && |jobs| == |old(jobs)| - 1
      ensures jobs == Without(old(jobs), j) && history == [j] + old(history)
      ensures j.timeEvent.Some? && Micros(j.timeEvent.value) == Micros(now) + 500000
      ensures DoneJobs() == old(DoneJobs()) + {j}
      ensures j.about in seen && clock < seen[j.about].at + HISTORY_MSEC * MSEC ==> j.about in overridden
    {
      hide Listed, Job.Holds, OneJobEach, Logged;
      Tick(now);
      NothingRemembered(j);
      label Ticked:
      JobMarkDone(j, now);
      forall c | c in seen
        ensures Spaced(c)
      {
        assert old@Ticked(Spaced(c));
        if clock < seen[c].at + HISTORY_MSEC * MSEC && c !in overridden {
          var h :| h in repr && old@Ticked(Remembered(c, h));
          assert Remembered(c, h);
        }
      }
    }

    lemma NothingRemembered(j: Job)
      requires Valid() && j in repr && j.state.Scheduled?
      ensures j.about in seen && clock < seen[j.about].at + HISTORY_MSEC * MSEC ==> j.about in overridden
    {
      hide Listed, Job.Holds, Logged, Timed;
      OnlyJob(j);
      assert forall h :: h in repr ==> !Remembered(j.about, h);
      assert j.about in seen ==> Spaced(j.about);
    }

    /** The rule of the half second holds of everything that was ever sent since the lists were cleared. */
    lemma HalfSecondRule(c: RecordClass, j: nat, i: nat)
      requires Valid() && i < |log| && SaidLastBefore(log, c, j, i)
      requires IsSaid(log[i], c) && log[i].sent && log[i].at < log[j].at + 500000
      ensures exists k :: j < k < i && log[k].Asked? && log[k].about == c
                          && ((log[k].ttl == 0) != (log[j].ttl == 0) || log[k].ttl / 2 > log[j].ttl
                              || (log[k].flush && !log[j].flush))
    {
      hide Listed, OneJobEach, Timed, Job.Holds, Spaced, Overrides;
      RepeatsAreJustified(log, c, j, i);
    }

    // ---------------------------------------------------------------- finding jobs

    method FindScheduledJob(r: Record) returns (found: Option<Job>)
      requires Valid() && Proper(r)
      ensures found.Some? ==>
                found.value in repr && found.value.state.Scheduled? && found.value.about == RecordClassOf(r)
      ensures found.None? ==> forall j :: j in repr && j.state.Scheduled? ==> j.about != RecordClassOf(r)
    {
      hide Valid, RecordTyped, RecordValid, RecordWellFormed, RecordClassOf, Job.Holds;
      JobsOf();
      for i := 0 to |jobs|
        invariant forall n :: 0 <= n < i ==> jobs[n].about != RecordClassOf(r)
      {
        var same := SameRecord(jobs[i], r);
        if same {
          return Some(jobs[i]);
        }
      }
      found := None;
    }

    /** Whole milliseconds since a job was sent or seen. */
    static function AgeMsec(j: Job, now: Timeval): int
      reads j`delivery
    {
      TruncDiv(Diff(now, j.delivery), MSEC)
    }

    /** find_history_job; one that is too old is dropped on the way. */
    method FindHistoryJob(r: Record, now: Timeval) returns (found: Option<Job>)
      requires Valid() && Proper(r) && clock <= Micros(now)
      modifies this`jobs, this`history, this`suppressed, this`repr, this`clock
      ensures Valid() && clock == Micros(now) && jobs == old(jobs) && suppressed == old(suppressed) && repr <= old(repr)
      ensures forall j :: j in old(repr) && j !in repr ==>
                j.state.Done? && j.about == RecordClassOf(r) && TruncDiv(Diff(now, j.delivery), 1000) > 500
      ensures found.Some? ==> found.value in repr && found.value.state.Done? && found.value.about == RecordClassOf(r)
      ensures found.Some? ==> repr == old(repr) && history == old(history)
      ensures found.Some? ==> TruncDiv(Diff(now, found.value.delivery), 1000) <= 500
      ensures found.None? ==> forall j :: j in repr && j.state.Done? ==> j.about != RecordClassOf(r)
    {
      hide Valid, RecordTyped, RecordValid, RecordWellFormed, RecordClassOf, Job.Holds;
      Tick(now);
      for i := 0 to |history|
        invariant unchanged(this`jobs, this`history, this`suppressed, this`repr) && Valid() && clock == Micros(now)
        invariant forall n :: 0 <= n < i ==> history[n].about != RecordClassOf(r)
      {
        JobsOf();
        var j := history[i];
        assert j in history;
        OnlyJob(j);
        var same := SameRecord(j, r);
        if same {
          if TruncDiv(Diff(now, j.delivery), MSEC) > HISTORY_MSEC {
            HalfASecond(now, j.delivery);
            Drop(j);
            return None;
          }
          return Some(j);
        }
      }
      JobsOf();
      found := None;
    }

    /** find_suppressed_job */
    method FindSuppressedJob(r: Record, querier: Address, now: Timeval) returns (found: Option<Job>)
      requires Valid() && Proper(r)
      modifies this`jobs, this`history, this`suppressed, this`repr
      ensures Valid() && jobs == old(jobs) && history == old(history) && repr <= old(repr)
      ensures forall j :: j in old(repr) && j !in repr ==>
                j.state.Suppressed? && j.about == RecordClassOf(r) && Diff(now, j.delivery) > 700000
      ensures found.Some? ==>
                found.value in repr && found.value.state.Suppressed? && found.value.about == RecordClassOf(r)
      ensures found.Some? ==> found.value.querier == Some(querier) && repr == old(repr) && suppressed == old(suppressed)
      ensures found.Some? ==> Diff(now, found.value.delivery) <= 700000
      ensures found.None? ==> forall j :: j in repr && j.state.Suppressed? && j.querier == Some(querier) ==>
                j.about != RecordClassOf(r)
    {
      hide Valid, RecordTyped, RecordValid, RecordWellFormed, RecordClassOf, Job.Holds;
      JobsOf();
      for i := 0 to |suppressed|
        invariant unchanged(this`jobs, this`history, this`suppressed, this`repr) && Valid()
        invariant forall n :: 0 <= n < i ==>
                  !(suppressed[n].about == RecordClassOf(r) && suppressed[n].querier == Some(querier))
      {
        var j := suppressed[i];
        OnlyJob(j);
        var same := SameRecord(j, r);
        if same && j.querier == Some(querier) {
          if Diff(now, j.delivery) > SUPPRESS_MSEC * MSEC {
            Drop(j);
            return None;
          }
          return Some(j);
        }
      }
      found := None;
    }

    // ---------------------------------------------------------------- posting

    /** Who a shared job answers: nobody in particular once two queriers want it. */
    static function SharedQuerier(first: Option<Address>, second: Option<Address>): Option<Address> {
      if second.None? || (first.Some? && second != first) then None else first
    }

    /** Only suppressed jobs are told apart by their querier. */
    method SetQuerier(j: Job, querier: Option<Address>)
      requires OneJobEach() && j in repr && !j.state.Suppressed?
      modifies j`querier
      ensures OneJobEach() && j.querier == querier
    {
      j.querier := querier;
    }

    lemma TimedAtDelivery(j: Job)
      requires j.state.Scheduled?
      ensures Timed(j) <==> j.timeEvent == Some(j.delivery)
    {
    }

    lemma ScheduledJob(j: Job)
      requires Valid() && j in jobs
      ensures j in repr && j.state.Scheduled? && j.timeEvent == Some(j.delivery) && Proper(j.record)
              && j.about == RecordClassOf(j.record)
    {
      hide OneJobEach, Spaced, Logged, Proper, RecordClassOf;
      assert Timed(j) && j.Holds();
    }

    /** A scheduled job takes over a new post for its record. */
    method Share(j: Job, r: Record, flush: bool, querier: Option<Address>, due: Timeval)
      requires Valid() && j in repr && j.state.Scheduled? && Proper(r) && RecordClassOf(r) == j.about
      modifies j`delivery, j`timeEvent, j`flushCache, j`querier, j`record
      ensures Valid() && j.record == r && j.delivery == Earlier(due, old(j.delivery))
      ensures j.flushCache == (old(j.flushCache) || flush)
      ensures j.querier == SharedQuerier(old(j.querier), querier)
    {
      hide RecordTyped, RecordValid, RecordWellFormed, RecordClassOf, Listed, Job.Holds, Timed, Logged, OneJobEach;
      assert Timed(j);
      TimedAtDelivery(j);
      if Compare(due, j.delivery) < 0 {
        j.delivery := due;
        j.timeEvent := Some(j.delivery);
      }
      if flush {
        j.flushCache := true;
      }
      if querier.None? || (j.querier.Some? && querier != j.querier) {
        SetQuerier(j, None);
      }
      j.record := r;
      j.StandsFor(r);
      TimedAtDelivery(j);
      forall c | c in seen
        ensures Spaced(c)
      {
        assert old(Spaced(c));
        if clock < seen[c].at + HISTORY_MSEC * MSEC && c !in overridden {
          var h :| h in repr && old(Remembered(c, h));
          assert Remembered(c, h);
        }
      }
    }

    /** The querier knows the record already. */
    ghost predicate KnownTo(r: Record, querier: Option<Address>, now: Timeval)
      requires Proper(r)
      reads this`repr, repr
    {
      querier.Some? && exists j :: j in repr && j.state.Suppressed? && j.about == RecordClassOf(r)
                                && j.querier == querier && Diff(now, j.delivery) <= SUPPRESS_MSEC * MSEC
                                && IsGoodbye(r) == IsGoodbye(j.record) && j.record.ttl >= r.ttl / 2
    }

    /** The same was said lately. */
    ghost predicate SaidLately(r: Record, flush: bool, now: Timeval)
      requires Proper(r)
      reads this`repr, repr
    {
      exists j :: j in repr && j.state.Done? && j.about == RecordClassOf(r) && AgeMsec(j, now) <= HISTORY_MSEC
               && !Overrides(r.ttl, flush, j.record.ttl, j.flushCache)
    }

    /** A querier knows a record that it said it knows within 700 ms, with at least half the TTL. */
    lemma KnownMeans(r: Record, querier: Option<Address>, now: Timeval)
      requires Proper(r)
      ensures KnownTo(r, querier, now) <==>
                && querier.Some?
                && exists j :: j in repr && j.state.Suppressed? && j.about == RecordClassOf(r)
                               && j.querier == querier && Diff(now, j.delivery) <= 700000
                               && (r.ttl == 0 <==> j.record.ttl == 0) && j.record.ttl >= r.ttl / 2
    {
      hide Proper, RecordClassOf;
    }

    /** What was said within half a second is superfluous if it had at least half the TTL, and the cache flush bit
        unless that is not asked for. */
    lemma SaidMeans(r: Record, flush: bool, now: Timeval)
      requires Proper(r)
      ensures SaidLately(r, flush, now) <==>
                exists j :: j in repr && j.state.Done? && j.about == RecordClassOf(r)
                            && TruncDiv(Diff(now, j.delivery), 1000) <= 500
                            && (r.ttl == 0 <==> j.record.ttl == 0) && j.record.ttl >= r.ttl / 2
                            && (j.flushCache || !flush)
    {
      hide Proper, RecordClassOf;
    }

    /** Something was said about the record lately. */
    ghost predicate SpokenOf(r: Record, now: Timeval)
      requires Proper(r)
      reads this`repr, repr
    {
      exists j :: j in repr && j.state.Done? && j.about == RecordClassOf(r) && AgeMsec(j, now) <= HISTORY_MSEC
    }

    function Due(immediately: bool, now: Timeval, jitter: nat): Timeval {
      if immediately then now else Add(Add(now, DEFER_MSEC * MSEC), jitter)
    }

    /** A job in the history tells what was said last. */
    lemma LastSaid(c: RecordClass, j: Job)
      requires Valid() && j in repr && j.state.Done? && j.about == c
      ensures c in seen && c !in overridden && clock < seen[c].at + HISTORY_MSEC * MSEC ==>
                seen[c].ttl == j.record.ttl && seen[c].flush == j.flushCache
    {
      hide Listed, Timed, Job.Holds, Logged;
      OnlyJob(j);
      if c in seen && c !in overridden && clock < seen[c].at + HISTORY_MSEC * MSEC {
        assert Spaced(c);
        var h :| h in repr && Remembered(c, h);
        assert h == j;
      }
    }

    /** There is a job for a record: a response is scheduled, or was said lately, or the querier knows it. */
    ghost predicate Attended(c: RecordClass, querier: Option<Address>)
      reads this`repr, repr`state, repr`querier
    {
      exists j :: j in repr && j.about == c && (j.state.Suppressed? ==> j.querier == querier)
    }

    /** There is a job for the record, whoever it is for. */
    static ghost predicate Tended(js: set<Job>, c: RecordClass) {
      exists j :: j in js && j.about == c
    }

    lemma TendedStill(was: set<Job>, c: RecordClass, querier: Option<Address>)
      requires OnlyAbout(was - repr, c) && Attended(c, querier)
      ensures Tended(repr, c) && forall d :: Tended(was, d) ==> Tended(repr, d)
    {
      forall d | Tended(was, d)
        ensures Tended(repr, d)
      {
        var j :| j in was && j.about == d;
        if j !in repr {
          assert j in was - repr;
        }
      }
    }

    static ghost predicate OnlyAbout(js: set<Job>, c: RecordClass) {
      forall j :: j in js ==> j.about == c
    }

    /** Known-answer suppression. */
    method IsKnownTo(r: Record, querier: Option<Address>, now: Timeval) returns (known: bool)
      requires Valid() && Proper(r)
      modifies this`jobs, this`history, this`suppressed, this`repr
      ensures Valid() && jobs == old(jobs) && history == old(history) && repr <= old(repr)
      ensures forall j :: j in old(repr) && !j.state.Suppressed? ==> j in repr
      ensures known == old(KnownTo(r, querier, now))
      ensures OnlyAbout(old(repr) - repr, RecordClassOf(r)) && (known ==> Attended(RecordClassOf(r), querier))
    {
      hide Valid, RecordTyped, RecordValid, RecordWellFormed, RecordClassOf, Job.Holds;
      if querier.None? {
        return false;
      }
      var s := FindSuppressedJob(r, querier.value, now);
      if s.None? {
        return false;
      }
      OnlyJob(s.value);
      assert s.value in repr && s.value.querier == querier;
      known := IsGoodbye(r) == IsGoodbye(s.value.record) && s.value.record.ttl >= r.ttl / 2;
    }

    /** Whether there is nothing in the history that makes a response superfluous; a job there that says
        something else goes. */
    method IsNews(r: Record, flush: bool, now: Timeval) returns (news: bool)
      requires Valid() && Proper(r) && clock <= Micros(now)
      modifies this`jobs, this`history, this`suppressed, this`repr, this`clock, this`overridden, this`log
      ensures Valid() && clock == Micros(now) && jobs == old(jobs) && suppressed == old(suppressed) && repr <= old(repr)
      ensures forall j :: j in old(repr) && !j.state.Done? ==> j in repr
      ensures news == !old(SaidLately(r, flush, now))
      ensures OnlyAbout(old(repr) - repr, RecordClassOf(r)) && (!news ==> forall q :: Attended(RecordClassOf(r), q))
      ensures news ==> forall j :: j in repr && j.state.Done? ==> j.about != RecordClassOf(r)
      ensures Sendings(log) == old(Sendings(log))
      ensures overridden == old(overridden) || (news && overridden == old(overridden) + {RecordClassOf(r)})
      ensures forall c :: c in overridden && c !in old(overridden) && c in seen ==>
                Micros(now) < seen[c].at + HISTORY_MSEC * MSEC ==>
                Overrides(r.ttl, flush, seen[c].ttl, seen[c].flush)
      // asking for something else than what was said lately is noted
      ensures log == old(log) + Request(r, flush, clock, news && old(SpokenOf(r, now)))
    {
      hide Valid, RecordTyped, RecordValid, RecordWellFormed, RecordClassOf, Job.Holds, Sendings;
      var h := FindHistoryJob(r, now);
      if h.Some? {
        var j := h.value;
        OnlyJob(j);
        if !(IsGoodbye(r) != IsGoodbye(j.record) || j.record.ttl < r.ttl / 2 || (flush && !j.flushCache)) {
          return false;
        }
        LastSaid(RecordClassOf(r), j);
        SendingsMore(log, Asked(RecordClassOf(r), clock, r.ttl, flush, false));
        NoteOverride(RecordClassOf(r), r.ttl, flush);
        Drop(j);
      }
      news := true;
    }

    /** Whether a response would be superfluous, since the querier knows the record or since it was said lately. */
    method IsWanted(r: Record, flush: bool, querier: Option<Address>, now: Timeval) returns (wanted: bool)
      requires Valid() && Proper(r) && clock <= Micros(now)
      modifies this`jobs, this`history, this`suppressed, this`repr, this`clock, this`overridden, this`log
      ensures Valid() && clock == Micros(now) && jobs == old(jobs) && repr <= old(repr)
      ensures forall j :: j in old(repr) && j.state.Scheduled? ==> j in repr
      ensures wanted == !old(KnownTo(r, querier, now) || SaidLately(r, flush, now))
      ensures OnlyAbout(old(repr) - repr, RecordClassOf(r)) && (!wanted ==> Attended(RecordClassOf(r), querier))
      ensures wanted ==> forall j :: j in repr && j.state.Done? ==> j.about != RecordClassOf(r)
      ensures Sendings(log) == old(Sendings(log)) && (!wanted ==> overridden == old(overridden))
      ensures forall c :: c in overridden && c !in old(overridden) && c in seen ==>
                Micros(now) < seen[c].at + HISTORY_MSEC * MSEC ==>
                Overrides(r.ttl, flush, seen[c].ttl, seen[c].flush)
      ensures log == old(log) + Request(r, flush, clock, wanted && old(SpokenOf(r, now)))
    {
      hide Valid, RecordTyped, RecordValid, RecordWellFormed, RecordClassOf, Job.Holds, KnownTo, Overrides, Sendings,
           Request;
      Tick(now);
      NoRequest(log, r, flush, clock);
      var known := IsKnownTo(r, querier, now);
      if known {
        return false;
      }
      assert SpokenOf(r, now) == old(SpokenOf(r, now));
      assert SaidLately(r, flush, now) == old(SaidLately(r, flush, now));
      hide SpokenOf, SaidLately;
      wanted := IsNews(r, flush, now);
    }

    /** avahi_response_scheduler_post */
    method Post(r: Record, flush: bool, querier: Option<Address>, immediately: bool, now: Timeval, jitter: nat)
      returns (posted: bool)
      requires Valid() && Proper(r) && !IsPattern(r.key) && clock <= Micros(now) && jitter < JITTER_MSEC * MSEC
      modifies this`jobs, this`history, this`suppressed, this`repr, this`clock, this`overridden, this`log
      modifies repr`delivery, repr`timeEvent, repr`flushCache, repr`querier, repr`record
      ensures Valid() && clock == Micros(now) && Sendings(log) == old(Sendings(log))
      ensures posted == !old(KnownTo(r, querier, now) || SaidLately(r, flush, now))
      ensures OnlyAbout(old(repr) - repr, RecordClassOf(r)) && Attended(RecordClassOf(r), querier)
      ensures !posted ==> jobs == old(jobs) && overridden == old(overridden)
      ensures posted ==> forall j :: j in repr && j.state.Done? ==> j.about != RecordClassOf(r)
      // a scheduled job for the record is shared, and brought forward if need be
      ensures posted ==> forall j :: j in old(repr) && old(j.state).Scheduled? && j.about == RecordClassOf(r) ==>
                && jobs == old(jobs) && j in repr && j.record == r && j.flushCache == (old(j.flushCache) || flush)
                && j.delivery == Earlier(if immediately then now else Add(Add(now, 20000), jitter), old(j.delivery))
                && j.querier == if querier.None? || (old(j.querier).Some? && old(j.querier) != querier) then None
                                else old(j.querier)
      // otherwise one is made
      ensures posted && (forall j :: j in old(repr) && old(j.state).Scheduled? ==> j.about != RecordClassOf(r)) ==>
                && jobs != [] && jobs[1..] == old(jobs) && fresh(jobs[0]) && jobs[0].record == r
                && jobs[0].flushCache == flush && jobs[0].querier == querier
                && jobs[0].delivery == if immediately then now else Add(Add(now, 20000), jitter)
      // something else is asked for than what was said lately
      ensures forall c :: c in overridden && c !in old(overridden) && c in seen ==>
                Micros(now) < seen[c].at + HISTORY_MSEC * MSEC ==>
                Overrides(r.ttl, flush, seen[c].ttl, seen[c].flush)
      ensures forall j :: j in repr ==> j in old(repr) || fresh(j)
      ensures forall j :: j in old(repr) && old(j.state).Scheduled? ==> j in repr
      ensures log == old(log) + Request(r, flush, clock, posted && old(SpokenOf(r, now)))
    {
      hide Valid, RecordTyped, RecordValid, RecordWellFormed, RecordClassOf, Job.Holds, KnownTo, Overrides, Sendings,
           SpokenOf, SaidLately, Request;
      posted := IsWanted(r, flush, querier, now);
      if posted {
        Schedule(r, flush, querier, Due(immediately, now, jitter));
      }
    }

    /** A response that is news: it shares the scheduled job for its record, or gets one. */
    method Schedule(r: Record, flush: bool, querier: Option<Address>, due: Timeval)
      requires Valid() && Proper(r) && !IsPattern(r.key)
      requires forall j :: j in repr && j.state.Done? ==> j.about != RecordClassOf(r)
      modifies this`jobs, this`history, this`suppressed, this`repr
      modifies repr`delivery, repr`timeEvent, repr`flushCache, repr`querier, repr`record
      ensures Valid()
      ensures forall j :: j in repr && j.state.Done? ==> j.about != RecordClassOf(r)
      ensures forall j :: j in old(repr) && old(j.state).Scheduled? && j.about == RecordClassOf(r) ==>
                && jobs == old(jobs) && j.record == r && j.flushCache == (old(j.flushCache) || flush)
                && j.delivery == Earlier(due, old(j.delivery)) && j.querier == SharedQuerier(old(j.querier), querier)
      ensures (forall j :: j in old(repr) && old(j.state).Scheduled? ==> j.about != RecordClassOf(r)) ==>
                && jobs != [] && jobs[1..] == old(jobs) && fresh(jobs[0]) && jobs[0].record == r
                && jobs[0].flushCache == flush && jobs[0].querier == querier && jobs[0].delivery == due
      ensures old(repr) <= repr && forall j :: j in repr ==> j in old(repr) || fresh(j)
      ensures Attended(RecordClassOf(r), querier)
    {
      hide Valid, RecordTyped, RecordValid, RecordWellFormed, RecordClassOf, Job.Holds;
      var s := FindScheduledJob(r);
      if s.Some? {
        OnlyJob(s.value);
        Share(s.value, r, flush, querier, due);
      } else {
        var j := JobNew(r, Scheduled, flush, querier, due, due);
      }
    }

    // ---------------------------------------------------------------- what others say

    lemma AllButOne(c: RecordClass)
      requires Valid()
      ensures ValidBut(c)
    {
    }

    /** A record in the history was said again, by another host. */
    method Renew(j: Job, r: Record, flush: bool, now: Timeval)
      requires Valid() && j in repr && j.state.Done? && Proper(r) && RecordClassOf(r) == j.about && clock == Micros(now)
      modifies j`record, j`flushCache, j`querier, j`delivery, j`timeEvent
      ensures ValidBut(j.about) && j.record == r && j.flushCache == flush && j.querier.None? && j.delivery == now
    {
      hide RecordTyped, RecordValid, RecordWellFormed, RecordClassOf, Listed, Job.Holds, Timed, Logged, OneJobEach;
      j.record := r;
      j.flushCache := flush;
      SetQuerier(j, None);
      j.delivery := now;
      AddMoves(now, HISTORY_MSEC * MSEC);
      j.timeEvent := Some(Add(now, HISTORY_MSEC * MSEC));
      j.StandsFor(r);
      TimedAfterwards(j);
      forall c | c in seen && c != j.about
        ensures Spaced(c)
      {
        assert old(Spaced(c));
        if clock < seen[c].at + HISTORY_MSEC * MSEC && c !in overridden {
          var h :| h in repr && old(Remembered(c, h));
          assert Remembered(c, h);
        }
      }
    }

    lemma TimedAfterwards(j: Job)
      requires j.state.Done? && j.timeEvent.Some?
               && Micros(j.timeEvent.value) == Micros(j.delivery) + HISTORY_MSEC * MSEC
      ensures Timed(j)
    {
    }

    /** avahi_response_scheduler_incoming: another host said a record. A scheduled response that would say
        no more than that is not sent. */
    method Incoming(r: Record, flush: bool, now: Timeval)
      requires Valid() && Proper(r) && clock <= Micros(now)
      modifies this`jobs, this`history, this`suppressed, this`repr, this`clock, this`seen, this`overridden, this`log
      modifies repr`state, repr`record, repr`flushCache, repr`querier, repr`delivery, repr`timeEvent
      ensures Valid() && clock == Micros(now) && Sendings(log) == old(Sendings(log))
      // every sighting is noted
      ensures |log| > |old(log)| && log[..|old(log)|] == old(log) && log[|old(log)|].Said? && !log[|old(log)|].sent
      ensures var n := log[|old(log)|];
              n.about == RecordClassOf(r) && n.at == clock && n.saidTtl == r.ttl && n.saidFlush == flush
      // a response that says something else stays
      ensures forall j :: j in old(repr) && old(j.state).Scheduled? && j.about == RecordClassOf(r) &&
                          old(Overrides(j.record.ttl, j.flushCache, r.ttl, flush)) ==>
                && repr == old(repr) && jobs == old(jobs) && (forall h :: h in repr ==> unchanged(h))
                && log == old(log) + [Said(j.about, clock, r.ttl, flush, false, r.ttl, flush)]
                          + [Asked(j.about, clock, j.record.ttl, j.flushCache, true)]
      // any other goes to the history as it is
      ensures forall j :: j in old(repr) && old(j.state).Scheduled? && j.about == RecordClassOf(r) &&
                          !old(Overrides(j.record.ttl, j.flushCache, r.ttl, flush)) ==>
                && repr == old(repr) && j.state.Done? && j.record == old(j.record) && j.flushCache == old(j.flushCache)
                && j.delivery == now
                && log == old(log) + [Said(j.about, clock, j.record.ttl, j.flushCache, false, r.ttl, flush)]
      // and what was not scheduled is remembered as it was seen
      ensures (forall j :: j in old(repr) && old(j.state).Scheduled? ==> j.about != RecordClassOf(r)) ==>
                && (forall j :: j in repr && j.state.Scheduled? ==> j.about != RecordClassOf(r))
                && log == old(log) + [Said(RecordClassOf(r), clock, r.ttl, flush, false, r.ttl, flush)]
    {
      hide Valid, RecordTyped, RecordValid, RecordWellFormed, RecordClassOf, Job.Holds, Sendings, Overrides;
      Tick(now);
      var s := FindScheduledJob(r);
      if s.Some? {
        OnlyJob(s.value);
        WhileScheduled(s.value, r, flush, now);
      } else {
        Remember(r, flush, now);
      }
    }

    /** Another host said a record for which a response is scheduled. */
    method WhileScheduled(j: Job, r: Record, flush: bool, now: Timeval)
      requires Valid() && Proper(r) && clock == Micros(now) && j in repr && j.state.Scheduled?
               && j.about == RecordClassOf(r)
      modifies this`jobs, this`history, this`clock, this`seen, this`overridden, this`log, j`state, j`delivery,
               j`timeEvent
      ensures Valid() && clock == Micros(now) && Sendings(log) == old(Sendings(log))
      ensures if Overrides(j.record.ttl, j.flushCache, r.ttl, flush) then
                && jobs == old(jobs) && unchanged(j)
                && log == old(log) + [Said(j.about, clock, r.ttl, flush, false, r.ttl, flush)]
                          + [Asked(j.about, clock, j.record.ttl, j.flushCache, true)]
              else
                && j.state.Done? && j.delivery == now
                && log == old(log) + [Said(j.about, clock, j.record.ttl, j.flushCache, false, r.ttl, flush)]
    {
      hide Valid, RecordTyped, RecordValid, RecordWellFormed, RecordClassOf, Job.Holds, Sendings;
      if (!j.flushCache || flush) && IsGoodbye(r) == IsGoodbye(j.record) && r.ttl >= j.record.ttl / 2 {
        MarkDone(j, now);
        AllButOne(j.about);
        SendingsMore(log, Said(j.about, clock, j.record.ttl, j.flushCache, false, r.ttl, flush));
        NoteSaid(j, false, r.ttl, flush);
      } else {
        ghost var n := Said(j.about, clock, r.ttl, flush, false, r.ttl, flush);
        SendingsMore(log, n);
        SendingsMore(log + [n], Asked(j.about, clock, j.record.ttl, j.flushCache, true));
        NoteIgnored(j, r.ttl, flush);
      }
    }

    /** Another host said a record that is not scheduled here. */
    method Remember(r: Record, flush: bool, now: Timeval)
      requires Valid() && Proper(r) && clock == Micros(now)
      requires forall j :: j in repr && j.state.Scheduled? ==> j.about != RecordClassOf(r)
      modifies this`jobs, this`history, this`suppressed, this`repr, this`clock, this`seen, this`overridden, this`log
      modifies repr`record, repr`flushCache, repr`querier, repr`delivery, repr`timeEvent
      ensures Valid() && clock == Micros(now) && Sendings(log) == old(Sendings(log))
      ensures forall j :: j in repr && j.state.Scheduled? ==> j.about != RecordClassOf(r)
      ensures log == old(log) + [Said(RecordClassOf(r), clock, r.ttl, flush, false, r.ttl, flush)]
    {
      hide Valid, RecordTyped, RecordValid, RecordWellFormed, RecordClassOf, Job.Holds, Sendings;
      var h := FindHistoryJob(r, now);
      if h.Some? {
        OnlyJob(h.value);
        Renew(h.value, r, flush, now);
        SendingsMore(log, Said(h.value.about, clock, h.value.record.ttl, h.value.flushCache, false, r.ttl, flush));
        NoteSaid(h.value, false, r.ttl, flush);
      } else {
        AddMoves(now, HISTORY_MSEC * MSEC);
        var j := JobNew(r, Done, flush, None, now, Add(now, HISTORY_MSEC * MSEC));
        AllButOne(j.about);
        SendingsMore(log, Said(j.about, clock, j.record.ttl, j.flushCache, false, r.ttl, flush));
        NoteSaid(j, false, r.ttl, flush);
      }
    }

    /** A suppressed job is brought up to date. */
    method Refresh(j: Job, r: Record, now: Timeval)
      requires Valid() && j in repr && j.state.Suppressed? && Proper(r) && RecordClassOf(r) == j.about
      modifies j`record, j`delivery, j`timeEvent
      ensures Valid() && j.record == r && j.delivery == now
      ensures j.timeEvent.Some? && Micros(j.timeEvent.value) == Micros(now) + 700000
    {
      hide RecordTyped, RecordValid, RecordWellFormed, RecordClassOf, Listed, Job.Holds, Logged;
      assert Timed(j);
      j.record := r;
      j.StandsFor(r);
      j.delivery := now;
      AddMoves(now, SUPPRESS_MSEC * MSEC);
      j.timeEvent := Some(Add(now, SUPPRESS_MSEC * MSEC));
      forall c | c in seen
        ensures Spaced(c)
      {
        assert old(Spaced(c));
        if clock < seen[c].at + HISTORY_MSEC * MSEC && c !in overridden {
          var h :| h in repr && old(Remembered(c, h));
          assert Remembered(c, h);
        }
      }
    }

    /** avahi_response_scheduler_suppress: a querier knows a record. A response to it alone is dropped, and
        for a while none is scheduled for it. */
    method Suppress(r: Record, querier: Address, now: Timeval)
      requires Valid() && Proper(r)
      modifies this`jobs, this`history, this`suppressed, this`repr, repr`record, repr`delivery, repr`timeEvent
      ensures Valid()
      ensures exists j :: j in repr && j.state.Suppressed? && j.about == RecordClassOf(r) && j.querier == Some(querier)
                          && j.record == r && j.delivery == now
                          && j.timeEvent.Some? && Micros(j.timeEvent.value) == Micros(now) + 700000
      ensures forall j :: j in old(repr) && j.state.Scheduled? ==>
                (j !in repr <==> j.about == RecordClassOf(r) && j.querier == Some(querier)
                                 && (r.ttl == 0 <==> old(j.record).ttl == 0) && r.ttl >= old(j.record).ttl / 2)
    {
      hide Valid, RecordTyped, RecordValid, RecordWellFormed, RecordClassOf, Job.Holds;
      var s := FindScheduledJob(r);
      if s.Some? {
        var j := s.value;
        OnlyJob(j);
        if j.querier == Some(querier) && IsGoodbye(r) == IsGoodbye(j.record) && r.ttl >= j.record.ttl / 2 {
          Drop(j);
        }
      }
      var h := FindSuppressedJob(r, querier, now);
      if h.Some? {
        Refresh(h.value, r, now);
        assert h.value in repr;
      } else {
        AddMoves(now, SUPPRESS_MSEC * MSEC);
        var j := JobNew(r, Suppressed, false, Some(querier), now, Add(now, SUPPRESS_MSEC * MSEC));
      }
    }

    // ---------------------------------------------------------------- sending

    ghost predicate AuxProper() {
      forall r: Record, i: int :: 0 <= i < |aux(r)| ==> Proper(aux(r)[i].record) && !IsPattern(aux(r)[i].record.key)
    }

    /** What each job is about to say, or has said. */
    ghost function Held(): map<Job, Item>
      reads this`repr, repr`record, repr`flushCache
    {
      map j | j in repr :: Item(j.record, j.flushCache)
    }

    ghost function DoneJobs(): set<Job>
      reads this`repr, repr`state
    {
      set j | j in repr && j.state.Done?
    }

    lemma HeldBy(j: Job)
      requires j in repr
      ensures j in Held() && Held()[j] == Item(j.record, j.flushCache) && (j in DoneJobs() <==> j.state.Done?)
    {
    }

    lemma HeldByAll()
      ensures Held().Keys == repr
    {
    }

    /** Records go alone. */
    ghost predicate NoAux() {
      forall r :: aux(r) == []
    }

    ghost predicate ItemTended(i: Item)
      reads this`repr
    {
      Proper(i.record) && Tended(repr, RecordClassOf(i.record))
    }

    /** For each record that goes along with this one there is a job. */
    ghost predicate AuxTended(r: Record)
      reads this`repr
    {
      forall k :: 0 <= k < |aux(r)| ==> ItemTended(aux(r)[k])
    }

    /** The records that go along with a record are posted for the same querier. */
    method PostAux(j: Job, now: Timeval, jitter: nat)
      requires Valid() && j in repr && j.state.Scheduled? && clock <= Micros(now)
      requires AuxProper() && jitter < JITTER_MSEC * MSEC
      modifies this`jobs, this`history, this`suppressed, this`repr, this`clock, this`overridden, this`log
      modifies repr`delivery, repr`timeEvent, repr`flushCache, repr`querier, repr`record
      ensures Valid() && j in repr && clock <= Micros(now) && forall h :: h in repr ==> h in old(repr) || fresh(h)
      ensures Sendings(log) == old(Sendings(log))
      ensures NoAux() ==> Held() == old(Held()) && DoneJobs() == old(DoneJobs()) && j.record == old(j.record)
      ensures NoAux() ==> jobs == old(jobs)
      ensures AuxTended(old(j.record))
      ensures old(log) <= log
    {
      hide Valid, Proper, RecordClassOf, RecordWellFormed, KnownTo, SaidLately, Overrides, IsPattern, Sendings,
           Held, DoneJobs, Tended, Attended, OnlyAbout;
      var items := aux(j.record);
      for i := 0 to |items|
        invariant old(log) <= log
        invariant Sendings(log) == old(Sendings(log))
        invariant items == [] ==> Held() == old(Held()) && DoneJobs() == old(DoneJobs()) && j.record == old(j.record)
        invariant items == [] ==> jobs == old(jobs)
        invariant forall k :: 0 <= k < i ==> ItemTended(items[k])
        invariant Valid() && j in repr && clock <= Micros(now) && forall h :: h in repr ==> h in old(repr) || fresh(h)
      {
        ghost var was, querier := repr, j.querier;
        var posted := Post(items[i].record, items[i].flush, j.querier, false, now, jitter);
        C.WellFormedProper(items[i].record);
        TendedStill(was, RecordClassOf(items[i].record), querier);
      }
    }

    /** packet_add_response_job */
    method PacketAddResponseJob(p: Packet, j: Job, now: Timeval, jitter: nat, ghost items: seq<Item>) returns (ok: bool)
      requires Valid() && j in repr && j.state.Scheduled? && clock <= Micros(now)
      requires AuxProper() && jitter < JITTER_MSEC * MSEC
      requires ProperItems(items) && Carries(p, WithRecords(NOTHING, items))
      modifies this`jobs, this`history, this`suppressed, this`repr, this`clock, this`overridden, this`log, this`seen
      modifies repr`delivery, repr`timeEvent, repr`flushCache, repr`querier, repr`record, repr`state
      modifies p`size, p`nameTable, p.data
      ensures Valid() && j in repr && clock <= Micros(now) && Proper(old(j.record))
      ensures forall h :: h in repr ==> h in old(repr) || fresh(h)
      ensures NoAux() ==> Held() == old(Held()) && old(DoneJobs()) <= DoneJobs()
      ensures forall i :: 0 <= i < 6 ==> p.Field(i) == old(p.Field(i))
      ensures ok == (HEADER_SIZE +
              |WithRecord(WithRecords(NOTHING, items), old(j.record), old(j.flushCache)).body| <= p.data.Length)
      ensures if ok then
                && ProperItems(items + [Item(old(j.record), old(j.flushCache))])
                && Carries(p, WithRecords(NOTHING, items + [Item(old(j.record), old(j.flushCache))]))
                  && p.size > old(p.size)
                && j.state.Done? && j.delivery == now && (NoAux() ==> jobs == Without(old(jobs), j))
                && AuxTended(old(j.record))
                && Sendings(log) == old(Sendings(log)) + [Sending(RecordClassOf(old(j.record)), Micros(now))]
              else
                && Carries(p, WithRecords(NOTHING, items)) && j.state.Scheduled? && log == old(log) && jobs == old(jobs)
                && j.record == old(j.record) && j.flushCache == old(j.flushCache)
      ensures old(log) <= log
    {
      hide Valid, RecordTyped, RecordValid, RecordWellFormed, RecordClassOf, WithRecord, WithRecords, TableInside,
           Packet.Field,
           AuxProper, AuxTended, Logged, Sendings, NoAux, Held, DoneJobs;
      HasProper(j);
      OneMoreRecord(items, j.record, j.flushCache);
      RecordTakesRoom(WithRecords(NOTHING, items), j.record, j.flushCache);
      ok := AddRecord(p, j.record, j.flushCache, WithRecords(NOTHING, items));
      if ok {
        AddedToPacket(j, now, jitter);
      }
    }

    /** The record of a job is in a packet: what goes along with it is posted, and the job is done. */
    method AddedToPacket(j: Job, now: Timeval, jitter: nat)
      requires Valid() && j in repr && j.state.Scheduled? && clock <= Micros(now)
      requires AuxProper() && jitter < JITTER_MSEC * MSEC
      modifies this`jobs, this`history, this`suppressed, this`repr, this`clock, this`overridden, this`log, this`seen
      modifies repr`delivery, repr`timeEvent, repr`flushCache, repr`querier, repr`record, repr`state
      ensures Valid() && j in repr && clock <= Micros(now) && j.state.Done? && j.delivery == now
      ensures forall h :: h in repr ==> h in old(repr) || fresh(h)
      ensures NoAux() ==> Held() == old(Held()) && old(DoneJobs()) <= DoneJobs() && jobs == Without(old(jobs), j)
      ensures Sendings(log) == old(Sendings(log)) + [Sending(j.about, Micros(now))]
      ensures old(log) <= log && AuxTended(old(j.record))
    {
      hide Valid, AuxTended, RecordTyped, RecordValid, RecordWellFormed, RecordClassOf, AuxProper, Logged, Sendings,
           NoAux, Held, DoneJobs;
      PostAux(j, now, jitter);
      MarkDone(j, now);
      AllButOne(j.about);
      SendingsMore(log, Said(j.about, clock, j.record.ttl, j.flushCache, true, j.record.ttl, j.flushCache));
      NoteSaid(j, true, j.record.ttl, j.flushCache);
    }

    lemma HasProper(j: Job)
      requires Valid() && j in repr
      ensures Proper(j.record) && RecordClassOf(j.record) == j.about
    {
      hide Listed, OneJobEach, Timed, Spaced, Logged, Proper;
      assert j.Holds();
    }

    /** A response on the way with these records. */
    ghost predicate Filling(p: Packet, items: seq<Item>)
      reads p, p.data
    {
      ProperItems(items) && Carries(p, WithRecords(NOTHING, items)) && p.Field(FIELD_FLAGS) == FLAG_QR + FLAG_AA
    }

    method NewResponse(linkMtu: nat) returns (p: Packet)
      ensures fresh(p) && fresh(p.data) && Filling(p, []) && p.data.Length == Capacity(linkMtu)
    {
      hide TableOk, Packet.Field;
      p := Packet.NewResponse(linkMtu, true);
      assert p.data[HEADER_SIZE..p.size] == [];
    }

    /** Fills in the count of answers and hands the packet to the interface. */
    method Send(p: Packet, n: nat, ghost items: seq<Item>) returns (ghost m: Message)
      requires Filling(p, items) && n == |items|
      modifies this`packets, p.data
      ensures m.items == items && WellFormedMessage(m) && packets == old(packets) + [m.packet]
    {
      hide Proper, WithRecords, Carries, Packet.Field, U16At;
      ghost var c := WithRecords(NOTHING, items);
      SetCount(p, FIELD_ANCOUNT, n % 0x10000, c);
      var packet := BytesOf(p, c);
      packets := packets + [packet];
      m := Message(items, packet);
    }

    /** There is room for the record behind others. */
    static ghost predicate FitsBehind(items: seq<Item>, r: Record, flush: bool, capacity: nat)
      requires ProperItems(items) && Proper(r)
    {
      HEADER_SIZE + |WithRecord(WithRecords(NOTHING, items), r, flush).body| <= capacity
    }

    /** The packet is full: the next scheduled record does not fit any more. */
    ghost predicate Full(items: seq<Item>, capacity: nat)
      requires ProperItems(items)
      reads this`jobs, (set j | j in jobs)`record, (set j | j in jobs)`flushCache
    {
      jobs != [] ==>
        && Proper(jobs[0].record)
        && HEADER_SIZE + |WithRecord(WithRecords(NOTHING, items), jobs[0].record, jobs[0].flushCache).body| > capacity
    }

    /** All but the first k records of a packet were taken from the front of a list of jobs. */
    static ghost predicate Taken(was: seq<Job>, held: map<Job, Item>, left: seq<Job>, items: seq<Item>, k: nat)
      requires k <= |items|
    {
      && |items| - k <= |was| && left == was[|items| - k..]
      && forall i :: 0 <= i < |items| - k ==> HeldAt(was, held, items, k, i)
    }

    static ghost predicate HeldAt(was: seq<Job>, held: map<Job, Item>, items: seq<Item>, k: nat, i: nat)
      requires i < |was| && k + i < |items|
    {
      was[i] in held && items[k + i] == held[was[i]]
    }

    lemma NoneTaken(was: seq<Job>, held: map<Job, Item>, items: seq<Item>)
      ensures Taken(was, held, was, items, |items|)
    {
    }

    lemma OneMoreTaken(was: seq<Job>, held: map<Job, Item>, left: seq<Job>, items: seq<Item>, k: nat)
      requires k <= |items| && Taken(was, held, left, items, k) && NoDuplicates(left) && left != [] && left[0] in held
      ensures Taken(was, held, Without(left, left[0]), items + [held[left[0]]], k)
    {
      FirstWithout(left);
      var n := |items| - k;
      assert was[n..][1..] == was[n + 1..] && left[0] == was[n];
      var more := items + [held[left[0]]];
      forall i | 0 <= i < |more| - k
        ensures HeldAt(was, held, more, k, i)
      {
        assert i < n ==> HeldAt(was, held, items, k, i);
      }
    }

    lemma BehindNothing(r: Record, flush: bool, capacity: nat)
      requires Proper(r)
      ensures ProperItems([]) && FitsBehind([], r, flush, capacity) == FitsAlone(r, flush, capacity)
    {
    }

    lemma NextJob()
      requires Valid() && jobs != []
      ensures NoDuplicates(jobs) && jobs[0] in repr && jobs[0].state.Scheduled? && Proper(jobs[0].record)
    {
      hide OneJobEach, Timed, Spaced, Logged, Proper;
      assert jobs[0].Holds();
    }

    /** One more record in the packet, if there is room. */
    method TryRecord(p: Packet, j: Job, now: Timeval, jitter: nat, ghost items: seq<Item>)
      returns (ok: bool, ghost items': seq<Item>)
      requires Valid() && j in repr && j.state.Scheduled? && clock <= Micros(now)
      requires AuxProper() && jitter < JITTER_MSEC * MSEC
      requires Filling(p, items)
      modifies this`jobs, this`history, this`suppressed, this`repr, this`clock, this`overridden, this`log, this`seen
      modifies repr`delivery, repr`timeEvent, repr`flushCache, repr`querier, repr`record, repr`state
      modifies p`size, p`nameTable, p.data
      ensures Valid() && j in repr && clock <= Micros(now) && Filling(p, items') && Proper(old(j.record))
      ensures forall h :: h in repr ==> h in old(repr) || fresh(h)
      ensures NoAux() ==> Held() == old(Held()) && old(DoneJobs()) <= DoneJobs()
      ensures if ok then
                && items' == items + [Item(old(j.record), old(j.flushCache))] && p.size > old(p.size) && j.state.Done?
                && (NoAux() ==> jobs == Without(old(jobs), j))
                && Sendings(log) == old(Sendings(log)) + [Sending(RecordClassOf(old(j.record)), Micros(now))]
              else
                && items' == items && log == old(log) && j.state.Scheduled? && jobs == old(jobs)
                && j.record == old(j.record) && j.flushCache == old(j.flushCache)
      ensures ok == FitsBehind(items, old(j.record), old(j.flushCache), p.data.Length)
      ensures old(log) <= log
    {
      hide Valid, Proper, RecordClassOf, RecordWellFormed, WithRecord, TableInside, Packet.Field, AuxProper, Sendings,
           NoAux,
           Held, DoneJobs;
      ghost var item := Item(j.record, j.flushCache);
      ghost var was := j.flushCache;
      ok := PacketAddResponseJob(p, j, now, jitter, items);
      items' := if ok then items + [item] else items;
    }

    /** send_response_packet: the record of the job, and others that are scheduled as long as there is room.
        For a record that does not fit into a packet of the usual size a packet of its own is made. */
    method SendResponsePacket(j: Job, now: Timeval, jitter: nat) returns (ghost m: Option<Message>)
      requires Valid() && j in repr && j.state.Scheduled? && clock <= Micros(now)
      requires AuxProper() && jitter < JITTER_MSEC * MSEC
      modifies this`jobs, this`history, this`suppressed, this`repr, this`clock, this`overridden, this`log, this`seen,
               this`packets
      modifies repr`delivery, repr`timeEvent, repr`flushCache, repr`querier, repr`record, repr`state
      ensures Valid() && Proper(old(j.record)) && clock <= Micros(now)
      // the record is sent exactly when it fits one of the two packets
      ensures m.Some? <==> || FitsAlone(old(j.record), old(j.flushCache), Capacity(mtu))
                           || FitsAlone(old(j.record), old(j.flushCache),
                             Capacity(RecordEstimate(old(j.record)) + HEADER_SIZE + EXTRA_SIZE))
      ensures m.None? ==> packets == old(packets) && j in repr && j.state.Done?
      ensures m.Some? ==> packets == old(packets) + [m.value.packet] && WellFormedMessage(m.value)
      ensures m.Some? ==> m.value.items != [] && m.value.items[0] == Item(old(j.record), old(j.flushCache))
      // a packet of the usual size is filled up: what is scheduled next does not fit any more
      ensures m.Some? && FitsAlone(old(j.record), old(j.flushCache), Capacity(mtu)) ==>
                Full(m.value.items, Capacity(mtu))
      // a packet of its own holds nothing else
      ensures m.Some? && !FitsAlone(old(j.record), old(j.flushCache), Capacity(mtu)) ==> |m.value.items| == 1
      // the other records are those of the jobs scheduled first, in their order
      ensures NoAux() && m.Some? ==> Taken(Without(old(jobs), j), old(Held()), jobs, m.value.items, 1)
      // without records that go along, every record stays what it is
      ensures NoAux() ==> Held() == old(Held()) && old(DoneJobs()) <= DoneJobs()
      ensures NoAux() ==> j in DoneJobs()
      // the log tells exactly what was in the packet
      ensures Sendings(log) == old(Sendings(log)) + if m.Some? then InPacket(m.value.items, Micros(now)) else []
      ensures old(log) <= log
    {
      hide Valid, Proper, RecordClassOf, RecordWellFormed, AuxProper, Filling, FitsAlone, RecordEstimate,
           WellFormedMessage, Sendings, Full, Capacity, Without, Taken,
           InPacket, ProperItems, NoAux, Held, DoneJobs;
      HasProper(j);
      var n := 1;
      var p, ok;
      ghost var items: seq<Item>;
      ghost var held := Held();
      p, ok, items := InNewPacket(mtu, j, now, jitter);
      NoneTaken(jobs, held, items);
      if ok {
        n, items := FillUp(p, n, now, jitter, items, old(Sendings(log)));
      } else {
        p, ok, items := InNewPacket(RecordEstimate(j.record) + HEADER_SIZE + EXTRA_SIZE, j, now, jitter);
        if !ok {
          MarkDone(j, now);
          HeldBy(j);
          return None;
        }
        NoneTaken(jobs, held, items);
      }
      ghost var sent := Send(p, n, items);
      m := Some(sent);
    }

    /** A new packet with the record of a job, if it holds it. */
    method InNewPacket(linkMtu: nat, j: Job, now: Timeval, jitter: nat)
      returns (p: Packet, ok: bool, ghost items: seq<Item>)
      requires Valid() && j in repr && j.state.Scheduled? && clock <= Micros(now)
      requires AuxProper() && jitter < JITTER_MSEC * MSEC
      modifies this`jobs, this`history, this`suppressed, this`repr, this`clock, this`overridden, this`log, this`seen
      modifies repr`delivery, repr`timeEvent, repr`flushCache, repr`querier, repr`record, repr`state
      ensures Valid() && j in repr && clock <= Micros(now) && fresh(p) && fresh(p.data) && Filling(p, items)
      ensures forall h :: h in repr ==> h in old(repr) || fresh(h)
      ensures Proper(old(j.record)) && ok == FitsAlone(old(j.record), old(j.flushCache), Capacity(linkMtu))
      ensures if ok then
                && items == [Item(old(j.record), old(j.flushCache))] && j.state.Done?
                && (NoAux() ==> jobs == Without(old(jobs), j)) && p.data.Length == Capacity(linkMtu)
                && Sendings(log) == old(Sendings(log)) + InPacket(items, Micros(now))
              else
                && log == old(log) && j.state.Scheduled? && j.record == old(j.record) && jobs == old(jobs)
                  && j.flushCache == old(j.flushCache)
      ensures NoAux() ==> Held() == old(Held()) && old(DoneJobs()) <= DoneJobs() && (ok ==> j in DoneJobs())
      ensures old(log) <= log
    {
      hide Valid, Proper, RecordClassOf, RecordWellFormed, AuxProper, Filling, Capacity, FitsAlone, Sendings, InPacket,
           FitsBehind, ProperItems, NoAux, Held, DoneJobs;
      HasProper(j);
      NothingInPacket(Sendings(log), Micros(now));
      BehindNothing(j.record, j.flushCache, Capacity(linkMtu));
      InPacketMore(Sendings(log), [], j.record, j.flushCache, Micros(now));
      assert [] + [Item(j.record, j.flushCache)] == [Item(j.record, j.flushCache)];
      p := NewResponse(linkMtu);
      ok, items := TryRecord(p, j, now, jitter, []);
      HeldBy(j);
    }

    /** Scheduled records are added as long as there is room. */
    method FillUp(p: Packet, n: nat, now: Timeval, jitter: nat, ghost items: seq<Item>,
                  ghost before: seq<Sending<RecordClass>>)
      returns (n': nat, ghost items': seq<Item>)
      requires Valid() && clock <= Micros(now) && AuxProper() && jitter < JITTER_MSEC * MSEC
      requires Filling(p, items) && n == |items| && items != []
               && Sendings(log) == before + InPacket(items, Micros(now))
      modifies this`jobs, this`history, this`suppressed, this`repr, this`clock, this`overridden, this`log, this`seen
      modifies repr`delivery, repr`timeEvent, repr`flushCache, repr`querier, repr`record, repr`state
      modifies p`size, p`nameTable, p.data
      ensures Valid() && clock <= Micros(now) && Filling(p, items') && n' == |items'| && items' != []
              && items'[0] == items[0]
      ensures Sendings(log) == before + InPacket(items', Micros(now))
      ensures NoAux() ==> Held() == old(Held()) && old(DoneJobs()) <= DoneJobs()
      ensures Full(items', p.data.Length)
      ensures |items| <= |items'| && (NoAux() ==> Taken(old(jobs), old(Held()), jobs, items', |items|))
      ensures old(log) <= log
    {
      hide Valid, Proper, RecordClassOf, RecordWellFormed, AuxProper, Carries, Packet.Field, FitsAlone, Sendings,
           InPacket, Taken, FitsBehind,
           ProperItems, NoAux, Held, DoneJobs;
      NoneTaken(jobs, Held(), items);
      n', items' := n, items;
      var ok := true;
      while jobs != []
        invariant Valid() && clock <= Micros(now) && forall h :: h in repr ==> h in old(repr) || fresh(h)
        invariant Filling(p, items') && n' == |items'| && items' != [] && items'[0] == items[0]
        invariant old(log) <= log
        invariant Sendings(log) == before + InPacket(items', Micros(now))
        invariant NoAux() ==> Held() == old(Held()) && old(DoneJobs()) <= DoneJobs()
        invariant |items| <= |items'| && (NoAux() ==> Taken(old(jobs), old(Held()), jobs, items', |items|))
        invariant ok
        decreases p.data.Length - p.size
      {
        NextJob();
        var next := jobs[0];
        HeldBy(next);
        ghost var left, before', held := jobs, items', Held();
        PacketWithin(p, items');
        HasProper(next);
        InPacketMore(before, items', next.record, next.flushCache, Micros(now));
        ok, items' := TryRecord(p, next, now, jitter, items');
        PacketWithin(p, items');
        if !ok {
          NotFitting(items', next.record, next.flushCache, p.data.Length);
          break;
        }
        if NoAux() {
          OneMoreTaken(old(jobs), held, left, before', |items|);
        }
        n' := n' + 1;
      }
    }

    lemma NotFitting(items: seq<Item>, r: Record, flush: bool, capacity: nat)
      requires jobs != [] && r == jobs[0].record && flush == jobs[0].flushCache
      requires ProperItems(items) && Proper(r) && !FitsBehind(items, r, flush, capacity)
      ensures Full(items, capacity)
    {
    }

    lemma PacketWithin(p: Packet, items: seq<Item>)
      requires Filling(p, items)
      ensures p.size <= p.data.Length
    {
    }

    /** elapse_callback */
    method Elapse(j: Job, now: Timeval, jitter: nat) returns (ghost m: Option<Message>)
      requires Valid() && j in repr && clock <= Micros(now) && AuxProper() && jitter < JITTER_MSEC * MSEC
      requires j.timeEvent.Some? && Micros(j.timeEvent.value) <= Micros(now)
      modifies this`jobs, this`history, this`suppressed, this`repr, this`clock, this`overridden, this`log, this`seen,
               this`packets
      modifies repr`delivery, repr`timeEvent, repr`flushCache, repr`querier, repr`record, repr`state
      ensures Valid() && clock <= Micros(now) && packets == old(packets) + if m.Some? then [m.value.packet] else []
      ensures m.Some? ==> old(j.state).Scheduled? && WellFormedMessage(m.value) && m.value.items != []
      ensures m.Some? ==> m.value.items[0] == Item(old(j.record), old(j.flushCache))
      // a record is sent exactly when it fits one of the two packets
      ensures old(j.state).Scheduled? ==>
                && Proper(old(j.record))
                && (m.Some? <==> || FitsAlone(old(j.record), old(j.flushCache), Capacity(mtu))
                                 || FitsAlone(old(j.record), old(j.flushCache),
                                   Capacity(RecordEstimate(old(j.record)) + HEADER_SIZE + EXTRA_SIZE)))
      // the packet is filled up with what is scheduled, in its order
      ensures m.Some? && FitsAlone(old(j.record), old(j.flushCache), Capacity(mtu)) ==>
                Full(m.value.items, Capacity(mtu))
      ensures NoAux() && m.Some? ==> Taken(Without(old(jobs), j), old(Held()), jobs, m.value.items, 1)
      ensures NoAux() && old(j.state).Scheduled? ==> Held() == old(Held()) && j in DoneJobs()
      ensures !old(j.state).Scheduled? ==> repr == old(repr) - {j} && log == old(log)
      ensures Sendings(log) == old(Sendings(log)) + if m.Some? then InPacket(m.value.items, Micros(now)) else []
      ensures old(log) <= log
    {
      hide Valid, Proper, RecordClassOf, RecordWellFormed, AuxProper, FitsAlone, RecordEstimate, WellFormedMessage,
           Sendings, InPacket, NoAux, Held, Full, Taken, Capacity, Without,
           DoneJobs;
      if j.state.Done? || j.state.Suppressed? {
        Tick(now);
        TimeIsOver(j, now);
        Drop(j);
        m := None;
      } else {
        m := SendResponsePacket(j, now, jitter);
      }
    }

    lemma TimeIsOver(j: Job, now: Timeval)
      requires Valid() && j in repr && j.timeEvent.Some? && Micros(j.timeEvent.value) <= Micros(now)
      ensures j.state.Done? ==> Micros(now) >= Micros(j.delivery) + HISTORY_MSEC * MSEC
    {
      hide Listed, OneJobEach, Spaced, Logged, Job.Holds;
      assert Timed(j);
    }

    /** avahi_response_scheduler_clear: nothing is remembered of what was said. */
    method Clear()
      requires Valid()
      modifies this`jobs, this`history, this`suppressed, this`repr, this`seen, this`overridden, this`log
      ensures Valid() && jobs == [] && history == [] && suppressed == [] && log == []
    {
      hide Valid;
      Forget();
      while jobs != []
        invariant Valid() && seen == map[] && log == []
        decreases |jobs| + |history| + |suppressed|
      {
        JobsOf();
        Discard(jobs[0]);
      }
      while history != []
        invariant Valid() && seen == map[] && log == [] && jobs == []
        decreases |history| + |suppressed|
      {
        JobsOf();
        Discard(history[0]);
      }
      while suppressed != []
        invariant Valid() && seen == map[] && log == [] && jobs == [] && history == []
        decreases |suppressed|
      {
        JobsOf();
        Discard(suppressed[0]);
      }
    }

    ghost method Forget()
      requires Valid()
      modifies this`seen, this`overridden, this`log
      ensures Valid() && seen == map[] && log == []
    {
      hide Listed, OneJobEach, Timed, Job.Holds;
      seen, overridden, log := map[], {}, [];
    }

    method Discard(j: Job)
      requires Valid() && j in repr && seen == map[]
      modifies this`jobs, this`history, this`suppressed, this`repr
      ensures Valid() && |jobs| + |history| + |suppressed| < |old(jobs)| + |old(history)| + |old(suppressed)|
      ensures jobs == if j.state.Scheduled? then Without(old(jobs), j) else old(jobs)
      ensures history == if j.state.Done? then Without(old(history), j) else old(history)
    {
      hide Listed, Timed, Job.Holds, Logged, OneEach, Spaced, Without;
      Fewer(repr, repr - {j});
      JobFree(j);
    }

    lemma Fewer(s: set<Job>, t: set<Job>)
      requires OneEach(s) && t <= s
      ensures OneEach(t)
    {
    }
  }

  /** Where what is remembered is what was said, the rule of the half second is about what was said. */
  lemma RememberedAsSaid(log: seq<Note>, c: RecordClass, j: nat, i: nat)
    requires Justified(log) && Ascending(log) && i < |log| && SaidLastBefore(log, c, j, i)
    requires IsSaid(log[i], c) && log[i].sent && log[i].at < log[j].at + 500000
    requires log[j].saidTtl == log[j].ttl && log[j].saidFlush == log[j].flush
    ensures exists k :: j < k < i && log[k].Asked? && log[k].about == c
                        && ((log[k].ttl == 0) != (log[j].saidTtl == 0) || log[k].ttl / 2 > log[j].saidTtl
                            || (log[k].flush && !log[j].saidFlush))
  {
    hide Overrides, Justified, Ascending;
    RepeatsAreJustified(log, c, j, i);
  }

  lemma RecordTakesRoom(c: Contents, r: Record, flush: bool)
    requires Proper(r)
    ensures |WithRecord(c, r, flush).body| >= |c.body| + 11
  {
    hide WireOf, RecordTyped, RecordValid, RecordWellFormed;
    RecordWritable(HEADER_SIZE + |c.body|, c.table, r, flush);
  }
}
