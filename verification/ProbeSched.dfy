/** The probe scheduler of avahi-core/probe-sched.c: several probes share a packet (section 8.1 of RFC 6762),
    with space reserved for their records while the questions are filled in. */
module ProbeSched {
  import opened Utf8
  import opened Domain
  import opened Rr
  import opened RecordWire
  import opened Wire
  import opened RecordRoundTrip
  import opened Timeval
  import opened DnsPacket
  import opened PacketContents
  import opened Estimates
  import opened Lists
  import opened Spacing
  import opened WireFormat

  const HISTORY_MSEC := 150
  const DEFER_MSEC := 50
  const MSEC := 1000
  const GAP := HISTORY_MSEC * MSEC

  datatype Message = Message(keys: seq<Key>, records: seq<Record>, packet: Text)

  /** A packet that says how many questions and authority records it holds, and holds them. */
  ghost predicate WellFormedMessage(m: Message) {
    && AllAskable(m.keys) && AllProper(m.records) && |m.packet| >= HEADER_SIZE
    && m.packet[HEADER_SIZE..] == Holding(m.keys, m.records).body
    && U16At(m.packet, 2 * FIELD_QDCOUNT) == |m.keys| % 0x10000
    && U16At(m.packet, 2 * FIELD_NSCOUNT) == |m.records| % 0x10000
    && U16At(m.packet, 2 * FIELD_FLAGS) == 0
  }

  /** What is in a probe. */
  lemma ProbePacket(m: Message)
    requires WellFormedMessage(m)
    ensures |m.packet| >= 12 && Pair(m.packet, 2) == 0 && Pair(m.packet, 4) == |m.keys| % 65536
    ensures Pair(m.packet, 8) == |m.records| % 65536 && AllAskable(m.keys) && AllProper(m.records)
    ensures m.packet[12..] == WithRecords(WithKeys(NOTHING, m.keys), Unflagged(m.records)).body
  {
    hide WithRecords, WithKeys, Askable, Proper, U16At, Pair;
    HeaderLayout(m.packet);
  }

  /** The question that a record is probed with. */
  function Question(r: Record): Key {
    Key(r.key.name, r.key.clazz, TYPE_ANY)
  }

  /** A record that can be probed for; its key was made by avahi_key_new. */
  predicate Probable(r: Record) {
    Proper(r) && NormalName(r.key.name) && !IsPattern(r.key)
  }

  lemma QuestionAskable(r: Record)
    requires Probable(r)
    ensures Askable(Question(r)) && NoNul(r.key.name) && WellFormedName(r.key.name)
    ensures |NormalForm(r.key.name)| < DOMAIN_NAME_MAX
    ensures KeyEstimate(Question(r)) == KeyEstimate(r.key) && RecordEstimate(r) >= 11
  {
  }

  /** Whether a record is probed by a question. */
  predicate ProbedBy(k: Key, r: Record) {
    k.clazz == r.key.clazz && WellFormedName(k.name) && WellFormedName(r.key.name) && Canon(k.name) == Canon(r.key.name)
  }

  class Job {
    ghost const about: RecordClass
    const record: Record
    var chosen: bool
    var done: bool
    var delivery: Timeval
    var timeEvent: Option<Timeval>

    constructor (r: Record, done: bool, delivery: Timeval, expiry: Timeval)
      requires Probable(r)
      ensures record == r && about == RecordClassOf(r) && this.done == done && !chosen && this.delivery == delivery
      ensures timeEvent == Some(expiry)
    {
      record, about, this.done, chosen, this.delivery, timeEvent :=
        r, RecordClassOf(r), done, false, delivery, Some(expiry);
    }

    ghost predicate Named() {
      Probable(record) && RecordClassOf(record) == about
    }
  }

  class Scheduler {
    const mtu: nat
    var jobs: seq<Job>
    var history: seq<Job>
    /** The packets handed to the interface. */
    var packets: seq<Text>
    /** All jobs; the records sent since the lists were cleared, and when each was sent last; and the last reading
        of the clock. */
    ghost var repr: set<Job>
    ghost var log: seq<Sending<RecordClass>>
    ghost var sent: map<RecordClass, int>
    ghost var clock: int

    ghost predicate Listed()
      reads this`jobs, this`history, this`repr, repr`done
    {
      && NoDuplicates(jobs) && NoDuplicates(history)
      && (forall j :: j in jobs ==> j in repr && !j.done)
      && (forall j :: j in history ==> j in repr && j.done)
      && (forall j :: j in repr ==> if j.done then j in history else j in jobs)
    }

    ghost predicate OneJobEach()
      reads this`repr
    {
      forall a, b | a in repr && b in repr && a.about == b.about :: a == b
    }

    ghost predicate Timed(j: Job)
      reads j`done, j`timeEvent, j`delivery
    {
      && j.timeEvent.Some?
      && if j.done then Micros(j.timeEvent.value) == Micros(j.delivery) + GAP else j.timeEvent.value == j.delivery
    }

    /** One job for each record; but for the choice of what goes into a packet. */
    ghost predicate ValidJobs()
      reads this`jobs, this`history, this`repr, repr`done, repr`timeEvent, repr`delivery
    {
      Listed() && OneJobEach() && forall j :: j in repr ==> j.Named() && Timed(j)
    }

    /** The jobs of the history: which record was sent and when. */
    ghost function Held(): map<Job, Sending<RecordClass>>
      reads this`repr, repr`done, repr`delivery
    {
      map j | j in repr && j.done :: Sending(j.about, Micros(j.delivery))
    }

    lemma HeldBy(j: Job)
      ensures j in repr && j.done <==> j in Held()
      ensures j in Held() ==> Held()[j] == Sending(j.about, Micros(j.delivery))
    {
    }

    /** No record was sent twice within 150 ms, and the history keeps it so. */
    ghost predicate Paced()
      reads this`repr, this`log, this`sent, this`clock, repr`done, repr`delivery
    {
      AllSpaced(log, GAP) && Latest(log, sent) && Guarded(sent, Held(), clock, GAP)
    }

    /** Between packets no scheduled job is chosen. */
    ghost predicate Idle()
      reads this`repr, repr`done, repr`chosen
    {
      forall j :: j in repr && !j.done ==> !j.chosen
    }

    ghost predicate Valid()
      reads this`jobs, this`history, this`repr, this`log, this`sent, this`clock, repr
    {
      ValidJobs() && Idle() && Paced()
    }

    constructor (mtu: nat)
      ensures Valid() && jobs == [] && history == [] && packets == [] && log == [] && this.mtu == mtu
    {
      this.mtu := mtu;
      jobs, history, packets, repr := [], [], [], {};
      log, sent, clock := [], map[], 0;
    }

    lemma JobsOf()
      requires ValidJobs()
      ensures forall j :: j in jobs ==> j in repr && !j.done && j.Named()
      ensures forall j :: j in history ==> j in repr && j.done && j.Named()
      ensures forall j :: j in repr ==> if j.done then j in history else j in jobs
      ensures NoDuplicates(jobs)
    {
      hide OneJobEach, Timed, Job.Named;
    }

    // ---------------------------------------------------------------- jobs

    /** job_free */
    method JobFree(j: Job)
      requires ValidJobs() && j in repr
      modifies this`jobs, this`history, this`repr
      ensures ValidJobs() && repr == old(repr) - {j} && |jobs| + |history| == |old(jobs)| + |old(history)| - 1
      ensures Held() == old(Held()) - {j}
      ensures if j.done then history == Without(old(history), j) && jobs == old(jobs)
              else jobs == Without(old(jobs), j) && history == old(history)
    {
      hide Timed, Job.Named;
      if j.done {
        NoDuplicatesWithout(history, j);
        history := Without(history, j);
      } else {
        NoDuplicatesWithout(jobs, j);
        jobs := Without(jobs, j);
      }
      repr := repr - {j};
    }

    /** job_mark_done */
    method JobMarkDone(j: Job, now: Timeval)
      requires ValidJobs() && j in repr && !j.done
      modifies this`jobs, this`history, j`done, j`timeEvent, j`delivery
      ensures ValidJobs() && j.done && j.delivery == now && |jobs| == |old(jobs)| - 1
      ensures j.timeEvent.Some? && Micros(j.timeEvent.value) == Micros(now) + 150000
      ensures jobs == Without(old(jobs), j) && history == [j] + old(history)
      ensures Held() == old(Held())[j := Sending(j.about, Micros(now))]
    {
      hide Job.Named;
      NoDuplicatesWithout(jobs, j);
      NoDuplicatesPrepend(j, history);
      jobs := Without(jobs, j);
      history := [j] + history;
      j.done := true;
      AddMoves(now, GAP);
      j.timeEvent := Some(Add(now, GAP));
      j.delivery := now;
    }

    /** The clock only goes forward. */
    ghost method Tick(now: Timeval)
      requires Valid() && clock <= Micros(now)
      modifies this`clock
      ensures Valid() && clock == Micros(now)
    {
      hide ValidJobs, Idle, AllSpaced, Latest, Guarded, Held;
      clock := Micros(now);
      GuardedLater(sent, Held(), old(clock), clock, GAP);
    }

    /** A job whose time in the history is over. */
    method Forget(j: Job, now: Timeval)
      requires Valid() && j in repr && j.done && clock <= Micros(now) && Micros(now) >= Micros(j.delivery) + GAP
      modifies this`jobs, this`history, this`repr, this`clock
      ensures Valid() && clock == Micros(now)
      ensures repr == old(repr) - {j} && history == Without(old(history), j) && jobs == old(jobs)
    {
      hide ValidJobs, AllSpaced, Latest, Guarded, Held;
      Tick(now);
      ghost var held := Held();
      HeldBy(j);
      JobFree(j);
      GuardedLess(sent, held, j, clock, GAP);
    }

    /** While a job is scheduled the history has none for its record. */
    lemma Unheld(j: Job)
      requires ValidJobs() && Paced() && j in repr && !j.done
      ensures j !in Held() && Guarded(sent, Held(), clock, GAP)
      ensures j.about in sent ==> sent[j.about] + GAP <= clock
    {
      hide Listed, Timed, Job.Named, AllSpaced, Latest, Guarded;
      NotGuarded(sent, Held(), j.about, clock, GAP);
    }

    /** A scheduled job is done; its record has been sent if there was a packet to hold it. */
    method MarkDone(j: Job, now: Timeval, ghost transmitted: bool)
      requires ValidJobs() && Paced() && j in repr && !j.done && clock == Micros(now)
      modifies this`jobs, this`history, this`log, this`sent, j`done, j`timeEvent, j`delivery
      ensures ValidJobs() && Paced() && j.done && |jobs| == |old(jobs)| - 1
      ensures j.timeEvent.Some? && Micros(j.timeEvent.value) == Micros(now) + 150000
      ensures jobs == Without(old(jobs), j) && history == [j] + old(history)
      ensures log == old(log) + if transmitted then [Sending(j.about, Micros(now))] else []
    {
      hide ValidJobs, AllSpaced, Latest, Guarded, Held;
      Unheld(j);
      ghost var held := Held();
      JobMarkDone(j, now);
      GuardedMore(sent, held, j, j.about, clock, GAP);
      if transmitted {
        HeldBy(j);
        Sent(log, sent, j.about, clock, GAP);
        GuardedSent(sent, Held(), j, j.about, clock, GAP);
        log := log + [Sending(j.about, clock)];
        sent := sent[j.about := clock];
      }
    }

    /** job_new for a probe that is to be sent. */
    method JobNew(r: Record, due: Timeval) returns (j: Job)
      requires Valid() && Probable(r) && forall h :: h in repr ==> h.about != RecordClassOf(r)
      modifies this`jobs, this`repr
      ensures Valid() && fresh(j) && j.record == r && !j.done && j.delivery == due
      ensures jobs == [j] + old(jobs) && repr == old(repr) + {j}
    {
      hide RecordTyped, RecordValid, RecordWellFormed, RecordClassOf, Canon, AllSpaced, Latest, Guarded;
      j := new Job(r, false, due, due);
      NoDuplicatesPrepend(j, jobs);
      jobs := [j] + jobs;
      repr := repr + {j};
      assert Held() == old(Held());
    }

    method SameRecord(j: Job, r: Record) returns (same: bool)
      requires j.Named() && Probable(r)
      ensures same <==> j.about == RecordClassOf(r)
    {
      hide RecordTyped, RecordValid, RecordClassOf;
      same := RecordEqualNoTtl(j.record, r);
    }

    method FindScheduledJob(r: Record) returns (found: Option<Job>)
      requires ValidJobs() && Probable(r)
      ensures found.Some? ==> found.value in repr && !found.value.done && found.value.about == RecordClassOf(r)
      ensures found.None? ==> forall j :: j in repr && !j.done ==> j.about != RecordClassOf(r)
    {
      hide ValidJobs, RecordTyped, RecordValid, RecordWellFormed, RecordClassOf, Job.Named;
      JobsOf();
      for i := 0 to |jobs|
        invariant forall n :: 0 <= n < i ==> jobs[n].about != RecordClassOf(r)
      {
        var same := SameRecord(jobs[i], r);
        if same {
          return Some(jobs[i]);
        }
      }
      found := None;
    }

    lemma OnlyJob(j: Job)
      requires ValidJobs() && j in repr
      ensures forall b :: b in repr && b.about == j.about ==> b == j
    {
      hide Listed, Timed, Job.Named;
    }

    /** find_history_job; one that is too old is dropped on the way. */
    method FindHistoryJob(r: Record, now: Timeval) returns (found: Option<Job>)
      requires Valid() && Probable(r) && clock <= Micros(now)
      modifies this`jobs, this`history, this`repr, this`clock
      ensures Valid() && clock == Micros(now) && jobs == old(jobs) && repr <= old(repr)
      ensures forall j :: j in old(repr) && j !in repr ==>
                j.done && j.about == RecordClassOf(r) && Diff(now, j.delivery) > 150000
      ensures found.Some? ==> found.value in repr && found.value.done && found.value.about == RecordClassOf(r)
      ensures found.Some? ==>
                repr == old(repr) && history == old(history) && Diff(now, found.value.delivery) <= 150000
      ensures found.None? ==> forall j :: j in repr && j.done ==> j.about != RecordClassOf(r)
    {
      hide ValidJobs, Paced, RecordTyped, RecordValid, RecordWellFormed, RecordClassOf, Job.Named;
      Tick(now);
      for i := 0 to |history|
        invariant unchanged(this`jobs, this`history, this`repr) && Valid() && clock == Micros(now)
        invariant forall n :: 0 <= n < i ==> history[n].about != RecordClassOf(r)
      {
        JobsOf();
        var j := history[i];
        assert j in history;
        OnlyJob(j);
        var same := SameRecord(j, r);
        if same {
          if Diff(now, j.delivery) > GAP {
            DiffIsDistance(now, j.delivery);
            Forget(j, now);
            return None;
          }
          return Some(j);
        }
      }
      JobsOf();
      found := None;
    }

    /** avahi_probe_scheduler_post */
    method Post(r: Record, immediately: bool, now: Timeval) returns (posted: bool)
      requires Valid() && Probable(r) && clock <= Micros(now)
      modifies this`jobs, this`history, this`repr, this`clock, repr`delivery, repr`timeEvent
      ensures Valid() && clock == Micros(now)
      ensures posted <==> forall j :: j in old(repr) && j.done && j.about == RecordClassOf(r) ==>
              Diff(now, old(j.delivery)) > 150000
      ensures !posted ==> jobs == old(jobs) && history == old(history)
      // a scheduled job for the record is brought forward if need be
      ensures posted ==> forall j :: j in old(repr) && !j.done && j.about == RecordClassOf(r) ==>
                && jobs == old(jobs) && j in repr
                && j.delivery == Earlier(if immediately then now else Add(now, 50000), old(j.delivery))
      // otherwise one is made
      ensures forall j :: j in old(repr) && (j.done || j.about != RecordClassOf(r)) ==> j.delivery == old(j.delivery)
      ensures posted && (forall j :: j in old(repr) && !j.done ==> j.about != RecordClassOf(r)) ==>
                && jobs != [] && jobs[1..] == old(jobs) && fresh(jobs[0]) && jobs[0].record == r
                && jobs[0].delivery == if immediately then now else Add(now, 50000)
    {
      hide ValidJobs, Paced, RecordTyped, RecordValid, RecordWellFormed, RecordClassOf, Job.Named;
      var h := FindHistoryJob(r, now);
      if h.Some? {
        return false;
      }
      var due := Due(immediately, now);
      var s := FindScheduledJob(r);
      if s.Some? {
        OnlyJob(s.value);
        BringForward(s.value, due);
      } else {
        var j := JobNew(r, due);
      }
      posted := true;
    }

    static function Due(immediately: bool, now: Timeval): Timeval {
      if immediately then now else Add(now, DEFER_MSEC * MSEC)
    }

    method BringForward(j: Job, due: Timeval)
      requires Valid() && j in repr && !j.done
      modifies j`delivery, j`timeEvent
      ensures Valid() && j.delivery == Earlier(due, old(j.delivery))
    {
      hide Listed, OneJobEach, Job.Named, AllSpaced, Latest, Guarded;
      if Compare(due, j.delivery) < 0 {
        j.delivery := due;
        j.timeEvent := Some(j.delivery);
      }
      assert Held() == old(Held());
    }

    // ---------------------------------------------------------------- choosing probes for a packet

    /** Only scheduled jobs have been chosen since, and all of them match one of the questions. */
    ghost predicate Matched(keys: seq<Key>, j: Job)
      reads j`chosen, j`done
    {
      j.chosen && !j.done ==> exists i :: 0 <= i < |keys| && ProbedBy(keys[i], j.record)
    }

    /** A packet on the way with these questions, and room reserved for records. */
    ghost predicate Asking(p: Packet, keys: seq<Key>)
      reads p`size, p`nameTable, p`resSize, p.data
    {
      AllAskable(keys) && Carries(p, WithKeys(NOTHING, keys)) && p.size + p.resSize <= p.data.Length
        && p.Field(FIELD_FLAGS) == 0
    }

    ghost predicate Choosing(keys: seq<Key>)
      reads this`jobs, this`history, this`repr, repr
    {
      ValidJobs() && AllAskable(keys) && forall j :: j in repr ==> Matched(keys, j)
    }

    /** The question of a probe; it always fits where its estimate and that of its record do. */
    method AppendQuestion(p: Packet, r: Record, ghost keys: seq<Key>) returns (k: Key)
      requires Probable(r) && Asking(p, keys)
      requires p.size + p.resSize + KeyEstimate(r.key) + RecordEstimate(r) <= p.data.Length
      modifies p`size, p`nameTable, p.data
      ensures k == Question(r) && Asking(p, keys + [k]) && p.size + p.resSize + RecordEstimate(r) <= p.data.Length + 1
      ensures p.size >= old(p.size)
    {
      hide Probable, WithKey, WithKeys, TableInside, Packet.Field, RecordEstimate, Readable, Join;
      QuestionAskable(r);
      NormalOfProbable(r);
      var name := NewName(r.key.name);
      k := Key(name.value, r.key.clazz, TYPE_ANY);
      OneMoreKey(keys, k);
      var c := WithKeys(NOTHING, keys);
      KeyWithin(HEADER_SIZE + |c.body|, c.table, k, false);
      KeyTakes(c, k);
      var b := AddKey(p, k, false, c);
      assert b;
    }

    static lemma NormalOfProbable(r: Record)
      requires Probable(r)
      ensures WellFormedName(r.key.name) && NormalForm(r.key.name) == r.key.name
      ensures |Join(Readable(r.key.name))| < DOMAIN_NAME_MAX
    {
      hide Proper, Readable;
      QuestionAskable(r);
      ReadableWhole(r.key.name);
    }

    lemma KeyTakes(c: Contents, k: Key)
      requires Askable(k)
      ensures |c.body| <= |WithKey(c, k, false).body| <= |c.body| + KeyEstimate(k) + 1
    {
      hide KeyWire;
      KeyWithin(HEADER_SIZE + |c.body|, c.table, k, false);
    }

    lemma MoreKeys(keys: seq<Key>, k: Key)
      requires Choosing(keys) && Askable(k)
      ensures Choosing(keys + [k])
    {
      hide ValidJobs, ProbedBy, Askable;
      forall j | j in repr
        ensures Matched(keys + [k], j)
      {
        assert Matched(keys, j);
        if j.chosen && !j.done {
          var i :| 0 <= i < |keys| && ProbedBy(keys[i], j.record);
          assert (keys + [k])[i] == keys[i];
        }
      }
    }

    /** The estimates of the records of a list that are in a set. */
    static ghost function Estimated(list: seq<Job>, marked: set<Job>): nat {
      if list == [] then 0
      else
        var j := list[|list| - 1];
        Estimated(list[..|list| - 1], marked) + if j in marked then RecordEstimate(j.record) else 0
    }

    static lemma {:induction false} EstimatedWithout(list: seq<Job>, marked: set<Job>, q: Job)
      requires q !in list
      ensures Estimated(list, marked + {q}) == Estimated(list, marked)
    {
      if list != [] {
        EstimatedWithout(list[..|list| - 1], marked, q);
      }
    }

    static lemma {:induction false} EstimatedMore(list: seq<Job>, marked: set<Job>, q: Job)
      requires NoDuplicates(list) && q in list && q !in marked
      ensures Estimated(list, marked + {q}) == Estimated(list, marked) + RecordEstimate(q.record)
    {
      hide RecordEstimate;
      NoDuplicatesFront(list);
      if list[|list| - 1] == q {
        EstimatedWithout(list[..|list| - 1], marked, q);
      } else {
        EstimatedMore(list[..|list| - 1], marked, q);
      }
    }

    static lemma {:induction false} EstimatedGrows(list: seq<Job>, marked: set<Job>, more: set<Job>)
      requires marked <= more
      ensures Estimated(list, marked) <= Estimated(list, more)
    {
      hide RecordEstimate;
      if list != [] {
        EstimatedGrows(list[..|list| - 1], marked, more);
      }
    }

    /** The room that the records of some jobs are estimated to take is reserved. */
    ghost predicate ReservedFor(p: Packet, kept: set<Job>)
      reads p`resSize, this`jobs
    {
      p.resSize == Estimated(jobs, kept)
    }

    /** Room is reserved for the records that are chosen, but for one of each question at most, for which there is
        none. */
    ghost predicate Reserved(p: Packet, questions: nat)
      reads p`resSize, p`size, this`jobs, this`repr, repr`chosen, repr`done
    {
      exists kept :: kept <= Chosen() && ReservedFor(p, kept)
                  && AllButFew(Chosen(), kept, questions, p.size + p.resSize, p.data.Length)
    }

    /** All but a few jobs; by the estimates there is no room for the records of these few. */
    static ghost predicate AllButFew(all: set<Job>, most: set<Job>, n: nat, used: nat, room: nat) {
      |all - most| <= n && forall h :: h in all - most ==> used + RecordEstimate(h.record) > room
    }

    /** One more job is chosen, and room for its record reserved or not. */
    lemma ReservedMore(p: Packet, kept: set<Job>, was: set<Job>, q: Job, n: nat, used: nat, reserved: bool)
      requires ValidJobs() && q in jobs && q !in was && Chosen() == was + {q} && kept <= was
      requires AllButFew(was, kept, n, used, p.data.Length) && used <= p.size + p.resSize
      requires p.resSize == Estimated(jobs, kept) + if reserved then RecordEstimate(q.record) else 0
      requires !reserved ==> p.size + p.resSize + RecordEstimate(q.record) > p.data.Length
      ensures Reserved(p, if reserved then n else n + 1)
    {
      hide OneJobEach, Job.Named, Timed, Estimated, RecordEstimate, Chosen;
      EstimatedMore(jobs, kept, q);
      if reserved {
        assert Chosen() - (kept + {q}) == was - kept;
        assert ReservedFor(p, kept + {q});
      } else {
        assert Chosen() - kept == (was - kept) + {q};
        assert ReservedFor(p, kept);
      }
    }

    lemma ReservedWider(p: Packet, n: nat)
      requires Reserved(p, n)
      ensures Reserved(p, n + 1)
    {
      hide ReservedFor, Chosen;
      var used := p.size + p.resSize;
      var kept :| kept <= Chosen() && ReservedFor(p, kept) && AllButFew(Chosen(), kept, n, used, p.data.Length);
      assert AllButFew(Chosen(), kept, n + 1, used, p.data.Length);
    }

    /** A job that a question matches is marked for the packet. */
    method Choose(j: Job, ghost keys: seq<Key>, ghost i: nat)
      requires Choosing(keys) && j in repr && i < |keys| && ProbedBy(keys[i], j.record) && !j.chosen && !j.done
      modifies j`chosen
      ensures Choosing(keys) && j.chosen && Chosen() == old(Chosen()) + {j}
      ensures Estimated(jobs, Chosen()) == old(Estimated(jobs, Chosen())) + RecordEstimate(j.record)
    {
      hide ProbedBy, Askable, RecordEstimate, Estimated, OneJobEach, Job.Named, Timed;
      EstimatedMore(jobs, Chosen(), j);
      hide ValidJobs;
      j.chosen := true;
      forall h | h in repr
        ensures Matched(keys, h)
      {
        assert h != j ==> old(Matched(keys, h));
      }
    }

    /** Whether a question is for the record of a job, too. */
    method Asks(k: Key, q: Job) returns (same: bool)
      requires Askable(k) && q.Named()
      ensures same <==> ProbedBy(k, q.record)
    {
      hide RecordTyped, RecordValid, NormalForm, RecordClassOf;
      if k.clazz != q.record.key.clazz {
        return false;
      }
      same := DomainEqual(k.name, q.record.key.name);
    }

    lemma AskingRoom(p: Packet, keys: seq<Key>)
      requires Asking(p, keys)
      ensures p.Valid() && p.size + p.resSize <= p.data.Length && AllAskable(keys)
    {
    }

    lemma NotChosen(j: Job)
      requires !j.chosen
      ensures j !in Chosen()
    {
    }

    ghost function KeptFor(p: Packet, n: nat): (kept: set<Job>)
      requires Reserved(p, n)
      reads p`resSize, p`size, this`jobs, this`repr, repr`chosen, repr`done
      ensures kept <= Chosen() && ReservedFor(p, kept)
      ensures AllButFew(Chosen(), kept, n, p.size + p.resSize, p.data.Length)
    {
      var kept :| kept <= Chosen() && ReservedFor(p, kept)
               && AllButFew(Chosen(), kept, n, p.size + p.resSize, p.data.Length);
      kept
    }

    lemma NamedProbable(j: Job)
      requires j.Named()
      ensures Probable(j.record) && ProbedBy(Question(j.record), j.record) && Askable(Question(j.record))
    {
      hide RecordTyped, RecordValid, RecordClassOf;
      QuestionAskable(j.record);
    }

    /** packet_add_probe_query */
    method PacketAddProbeQuery(p: Packet, j: Job, ghost keys: seq<Key>) returns (ok: bool, ghost end: nat)
      requires Choosing(keys) && j in repr && !j.done && !j.chosen && Asking(p, keys)
      requires Reserved(p, |keys|)
      modifies repr`chosen, p`size, p`nameTable, p`resSize, p.data
      ensures Reserved(p, if ok then |keys| + 1 else |keys|) && old(Chosen()) <= Chosen() && (ok ==> j in Chosen())
      ensures !ok ==> p.size == old(p.size) && p.resSize == old(p.resSize) && Chosen() == old(Chosen())
      ensures ok == (old(p.size) + old(p.resSize) + KeyEstimate(j.record.key) +
              RecordEstimate(j.record) <= p.data.Length)
      ensures if ok then Choosing(keys + [Question(j.record)]) && Asking(p, keys + [Question(j.record)]) && j.chosen
              else Choosing(keys) && Asking(p, keys) && forall h :: h in repr ==> h.chosen == old(h.chosen)
      // jobs that the question is for are chosen one after the other, up to one that does not fit what is left
      ensures ok ==> end <= |jobs| && forall n :: 0 <= n < end ==>
              Decided(jobs[n], Question(j.record), old(jobs[n].chosen))
      ensures ok && end < |jobs| ==>
                && ProbedBy(Question(j.record), jobs[end].record) && !jobs[end].chosen
                && p.size + p.resSize + RecordEstimate(jobs[end].record) > p.data.Length
      ensures ok ==> forall n :: end <= n < |jobs| && jobs[n] != j ==> jobs[n].chosen == old(jobs[n].chosen)
    {
      hide ValidJobs, WithKey, WithKeys, TableInside, Packet.Field, Packet.Valid, RecordEstimate, KeyEstimate,
           Probable, Matched, ProbedBy,
           Job.Named, Carries, Askable, Estimated, Chosen, AllButFew, Reserved;
      JobsOf();
      NamedProbable(j);
      ghost var was, kept := Chosen(), KeptFor(p, |keys|);
      var size := KeyEstimate(j.record.key) + RecordEstimate(j.record);
      AskingRoom(p, keys);
      var space := p.ReservedSpace();
      end := 0;
      if size > space {
        return false, end;
      }
      var k := AppendQuestion(p, j.record, keys);
      AskingRoom(p, keys + [k]);
      MoreKeys(keys, k);
      var reserved := p.ReserveSize(RecordEstimate(j.record));
      NotChosen(j);
      Choose(j, keys + [k], |keys|);
      ghost var held := p.resSize == old(p.resSize) + RecordEstimate(j.record);
      ReservedMore(p, kept, was, j, |keys|, old(p.size + p.resSize), held);
      if held {
        ReservedWider(p, |keys|);
      }
      end := ChooseMatching(p, k, keys + [k]);
      ok := true;
    }

    /** Jobs that a question is for, too, are chosen one after the other, up to one that does not fit what is left. */
    method ChooseMatching(p: Packet, k: Key, ghost keys: seq<Key>) returns (ghost end: nat)
      requires Choosing(keys) && Asking(p, keys) && keys != [] && keys[|keys| - 1] == k && Askable(k)
      requires Reserved(p, |keys|)
      modifies repr`chosen, p`resSize
      ensures Reserved(p, |keys|) && old(Chosen()) <= Chosen()
      ensures Choosing(keys) && Asking(p, keys) && end <= |jobs|
      ensures forall n :: 0 <= n < end ==> Decided(jobs[n], k, old(jobs[n].chosen))
      ensures end < |jobs| ==>
                && ProbedBy(k, jobs[end].record) && !jobs[end].chosen
                && p.size + p.resSize + RecordEstimate(jobs[end].record) > p.data.Length
      ensures forall n :: end <= n < |jobs| ==> jobs[n].chosen == old(jobs[n].chosen)
      ensures forall h :: h in repr && old(h.chosen) ==> h.chosen
    {
      hide ValidJobs, WithKey, WithKeys, TableInside, Packet.Field, Packet.Valid, RecordEstimate, KeyEstimate,
           Probable, Matched, ProbedBy, Job.Named, Carries, Askable, Estimated, Chosen, AllButFew, Reserved;
      end := |jobs|;
      for i := 0 to |jobs|
        invariant Choosing(keys) && Asking(p, keys) && Reserved(p, |keys|) && old(Chosen()) <= Chosen()
        invariant forall n :: 0 <= n < i ==> Decided(jobs[n], k, old(jobs[n].chosen))
        invariant forall n :: i <= n < |jobs| ==> jobs[n].chosen == old(jobs[n].chosen)
        invariant forall h :: h in repr && old(h.chosen) ==> h.chosen
      {
        JobsOf();
        var q := jobs[i];
        assert q in jobs;
        if q.chosen {
          continue;
        }
        var same := Asks(k, q);
        if !same {
          continue;
        }
        AskingRoom(p, keys);
        var left := p.ReservedSpace();
        if RecordEstimate(q.record) > left {
          end := i;
          break;
        }
        ghost var was, kept, used := Chosen(), KeptFor(p, |keys|), p.size + p.resSize;
        NotChosen(q);
        var reserved := p.ReserveSize(RecordEstimate(q.record));
        OtherPlaces(jobs, i);
        Choose(q, keys, |keys| - 1);
        ReservedMore(p, kept, was, q, |keys|, used, true);
      }
    }

    /** A job that was looked at: it is chosen if it was before, or if the question is for its record. */
    ghost predicate Decided(q: Job, k: Key, was: bool)
      reads q`chosen
    {
      q.chosen <==> was || ProbedBy(k, q.record)
    }

    // ---------------------------------------------------------------- sending

    /** The questions of a packet and the jobs that were chosen for it: every question is for one of them, and they are
        for each of these. By the estimates the records of all of them fit behind the questions, but for one of each
        question at most, for which nothing is left. All jobs before a certain one are chosen; that one is not, since
        by the estimates there is no room for its question and record behind the questions and the records that are
        chosen. */
    ghost predicate Packed(list: seq<Job>, keys: seq<Key>, chosen: set<Job>, end: nat)
      requires AllAskable(keys)
    {
      && AllFor(keys, chosen) && (forall h :: h in chosen ==> Covered(keys, h))
      && (exists kept :: kept <= chosen
           && var used := HEADER_SIZE + |WithKeys(NOTHING, keys).body| + Estimated(list, kept);
              used <= Capacity(mtu) && AllButFew(chosen, kept, |keys|, used, Capacity(mtu)))
      && end <= |list| && (forall n :: 0 <= n < end ==> list[n] in chosen)
      && (end < |list| ==>
            && list[end] !in chosen
            && HEADER_SIZE + |WithKeys(NOTHING, keys).body| + Estimated(list, chosen)
               + KeyEstimate(list[end].record.key) + RecordEstimate(list[end].record) > Capacity(mtu))
    }

    /** Every question is for one of the jobs that are chosen. */
    ghost predicate AllFor(keys: seq<Key>, chosen: set<Job>) {
      forall i :: 0 <= i < |keys| ==> IsFor(keys, i, chosen)
    }

    ghost predicate IsFor(keys: seq<Key>, i: nat, chosen: set<Job>)
      requires i < |keys|
    {
      exists h :: h in chosen && keys[i] == Question(h.record)
    }

    ghost predicate Covered(keys: seq<Key>, h: Job) {
      exists i :: 0 <= i < |keys| && ProbedBy(keys[i], h.record)
    }

    lemma AllForMore(keys: seq<Key>, chosen: set<Job>, more: set<Job>, j: Job)
      requires AllFor(keys, chosen) && chosen <= more && j in more
      ensures AllFor(keys + [Question(j.record)], more)
    {
      hide Question;
      var ks := keys + [Question(j.record)];
      forall i | 0 <= i < |ks|
        ensures IsFor(ks, i, more)
      {
        if i < |keys| {
          assert IsFor(keys, i, chosen) && ks[i] == keys[i];
          var h :| h in chosen && keys[i] == Question(h.record);
          assert h in more && ks[i] == Question(h.record);
        } else {
          assert j in more && ks[i] == Question(j.record);
        }
      }
    }

    lemma PackedSo(p: Packet, keys: seq<Key>, end: nat)
      requires Choosing(keys) && Asking(p, keys) && Reserved(p, |keys|) && AllFor(keys, Chosen()) && end <= |jobs|
      requires p.data.Length == Capacity(mtu) && forall n :: 0 <= n < end ==> jobs[n] in Chosen()
      requires end < |jobs| ==>
                 && !jobs[end].chosen
                 && p.size + p.resSize + KeyEstimate(jobs[end].record.key) + RecordEstimate(jobs[end].record)
                    > p.data.Length
      ensures Packed(jobs, keys, Chosen(), end)
    {
      hide ValidJobs, WithKey, WithKeys, Packet.Field, RecordEstimate, KeyEstimate, ProbedBy, Estimated, TableInside,
           Askable, Question, IsFor;
      EstimatedGrows(jobs, KeptFor(p, |keys|), Chosen());
      forall h | h in Chosen()
        ensures Covered(keys, h)
      {
        assert Matched(keys, h);
      }
    }

    /** As many questions as there is room for, with the records they ask about; the first is for the probe
        whose time has come. */
    method FillQuestions(p: Packet, j: Job) returns (ok: bool, n: nat, ghost keys: seq<Key>, ghost end: nat)
      requires Valid() && j in repr && !j.done && Asking(p, []) && p.resSize == 0 && p.size == HEADER_SIZE
      requires p.data.Length == Capacity(mtu)
      modifies repr`chosen, p`size, p`nameTable, p`resSize, p.data
      ensures ok == (HEADER_SIZE + KeyEstimate(j.record.key) + RecordEstimate(j.record) <= p.data.Length)
      ensures ok ==> Choosing(keys) && Asking(p, keys) && n == |keys| && n > 0 && keys[0] == Question(j.record)
      ensures ok ==> j in Chosen() && Packed(jobs, keys, Chosen(), end)
      ensures !ok ==> Valid()
    {
      hide ValidJobs, WithKey, WithKeys, Packet.Field, RecordEstimate, KeyEstimate, Carries, ProbedBy, Asking,
           Estimated, AllFor, Packed, Question, Choosing, Chosen, Reserved, Paced, Idle;
      n, keys, end := 0, [], 0;
      NothingChosen(p);
      ghost var inner;
      ok, inner := PacketAddProbeQuery(p, j, []);
      if !ok {
        return;
      }
      AllForMore([], {}, Chosen(), j);
      assert [] + [Question(j.record)] == [Question(j.record)];
      n, keys, end := 1, [Question(j.record)], |jobs|;
      for i := 0 to |jobs|
        invariant Choosing(keys) && Asking(p, keys) && n == |keys| && n > 0 && keys[0] == Question(j.record)
        invariant Reserved(p, |keys|) && AllFor(keys, Chosen()) && j in Chosen()
        invariant forall k :: 0 <= k < i ==> jobs[k] in Chosen()
      {
        var q := jobs[i];
        AmongChosen(q, keys);
        if q.chosen {
          continue;
        }
        var added;
        ghost var before := Chosen();
        added, inner := PacketAddProbeQuery(p, q, keys);
        if !added {
          end := i;
          break;
        }
        AllForMore(keys, before, Chosen(), q);
        keys := keys + [Question(q.record)];
        n := n + 1;
      }
      PackedSo(p, keys, end);
    }

    lemma NothingChosen(p: Packet)
      requires Valid() && p.resSize == 0
      ensures Chosen() == {} && Choosing([]) && AllFor([], {}) && Reserved(p, 0)
      ensures forall j :: j in repr && !j.done ==> !j.chosen
    {
      hide ValidJobs;
      NoneEstimated(jobs);
      assert ReservedFor(p, {});
    }

    static lemma {:induction false} NoneEstimated(list: seq<Job>)
      ensures Estimated(list, {}) == 0
    {
      if list != [] {
        NoneEstimated(list[..|list| - 1]);
      }
    }

    lemma AmongChosen(j: Job, keys: seq<Key>)
      requires Choosing(keys) && j in jobs
      ensures j in repr && !j.done && (j in Chosen() <==> j.chosen)
    {
      hide OneJobEach, Job.Named, Timed, Matched;
    }

    /** A probe on the way with these questions and records. */
    ghost predicate Filling(p: Packet, keys: seq<Key>, records: seq<Record>)
      reads p`size, p`nameTable, p.data
    {
      && AllAskable(keys) && AllProper(records) && Carries(p, Holding(keys, records))
      && p.Field(FIELD_QDCOUNT) == |keys| % 0x10000 && p.Field(FIELD_FLAGS) == 0
    }

    method TryRecord(p: Packet, r: Record, ghost keys: seq<Key>, ghost records: seq<Record>) returns (ok: bool)
      requires Filling(p, keys, records) && Proper(r)
      modifies p`size, p`nameTable, p.data
      ensures Filling(p, keys, if ok then records + [r] else records)
      ensures ok == (HEADER_SIZE + |WithRecord(Holding(keys, records), r, false).body| <= p.data.Length)
    {
      hide Proper, Askable, WithRecord, WithKey, WithRecords, WithKeys, TableInside, Packet.Field;
      OneMoreAnswer(WithKeys(NOTHING, keys), records, r);
      ok := AddRecord(p, r, false, Holding(keys, records));
    }

    /** The records that were chosen go into the packet, in the order of the list, and their jobs into the history.
        When one does not fit after all, it and those after it wait for another packet. */
    method AppendRecords(p: Packet, now: Timeval, ghost keys: seq<Key>) returns (n: nat, ghost moved: seq<Job>)
      requires ValidJobs() && Paced() && clock == Micros(now) && Filling(p, keys, [])
      modifies this`jobs, this`history, this`log, this`sent
      modifies repr`chosen, repr`done, repr`timeEvent, repr`delivery, p`size, p`nameTable, p.data
      ensures Valid() && Filling(p, keys, Records(moved)) && n == |moved| && Moved(moved)
      ensures moved <= Those(old(jobs), old(Chosen()))
      ensures |moved| < |Those(old(jobs), old(Chosen()))| ==>
                var r := Those(old(jobs), old(Chosen()))[|moved|].record;
                Proper(r) && HEADER_SIZE + |WithRecord(Holding(keys, Records(moved)), r, false).body| > p.data.Length
      ensures jobs == Except(old(jobs), Items(moved)) && history == Reversed(moved) + old(history)
      ensures log == old(log) + Together(Abouts(moved), Micros(now))
    {
      hide ValidJobs, Filling, Job.Named, Proper, Left, Chosen, Moved, Paced, Those, Except, Reversed, Records, Abouts,
           Together, WithRecord, Holding, Unmarked, Advanced;
      n, moved := 0, [];
      var list := jobs;
      ghost var marked := Chosen();
      LeftAtFirst(list, marked, now);
      for i := 0 to |list|
        invariant ValidJobs() && Paced() && Filling(p, keys, Records(moved)) && n == |moved| && Moved(moved)
        invariant Left(list, i, marked) && Unmarked(list, i) && moved == Those(list[..i], marked)
        invariant Advanced(list, moved, old(history), old(log), now)
      {
        var j := list[i];
        NextLeft(list, i, marked);
        if j.chosen {
          RecordProper(j);
          var ok := TryRecord(p, j.record, keys, Records(moved));
          if !ok {
            NextOfThose(list, marked, i);
            Unmark(list, i);
            NoneChosen(list, moved, now, old(history), old(log));
            return;
          }
          MoveNext(list, i, j, now, marked, moved, old(history), old(log));
          moved := moved + [j];
          n := n + 1;
        } else {
          LeftAfter(list, i, marked);
        }
      }
      assert list[..|list|] == list;
      NoneChosen(list, moved, now, old(history), old(log));
    }

    /** What is told of jobs that went into the history together. */
    static ghost function Records(js: seq<Job>): (rs: seq<Record>)
      ensures |rs| == |js|
    {
      seq(|js|, i requires 0 <= i < |js| => js[i].record)
    }

    static ghost function Abouts(js: seq<Job>): seq<RecordClass> {
      seq(|js|, i requires 0 <= i < |js| => js[i].about)
    }

    ghost predicate Moved(moved: seq<Job>)
      reads moved`done
    {
      forall k :: 0 <= k < |moved| ==> moved[k].done
    }

    /** The scheduled jobs that are marked for the packet. */
    ghost function Chosen(): set<Job>
      reads this`repr, repr`chosen, repr`done
    {
      set j | j in repr && j.chosen && !j.done
    }

    ghost predicate LeftAt(list: seq<Job>, k: int, marked: set<Job>)
      reads this`repr, repr`done, repr`chosen
    {
      0 <= k < |list| ==> list[k] in repr && !list[k].done && (list[k].chosen <==> list[k] in marked)
    }

    /** The jobs of a list from one on are still to be looked at. */
    ghost predicate Left(list: seq<Job>, i: nat, marked: set<Job>)
      reads this`repr, repr`done, repr`chosen
    {
      && NoDuplicates(list) && (forall k :: 0 <= k < |list| ==> list[k] in repr)
      && forall k :: i <= k ==> LeftAt(list, k, marked)
    }

    /** Before that, no scheduled job is chosen any more. */
    ghost predicate Unmarked(list: seq<Job>, i: nat)
      reads list`done, list`chosen
    {
      forall k :: 0 <= k < i && k < |list| ==> list[k].done || !list[k].chosen
    }

    /** The lists and the log after these jobs of a list went into the history. */
    ghost predicate Advanced(list: seq<Job>, moved: seq<Job>, was: seq<Job>, told: seq<Sending<RecordClass>>,
                             now: Timeval)
      reads this`jobs, this`history, this`log, this`clock
    {
      && clock == Micros(now) && jobs == Except(list, Items(moved)) && history == Reversed(moved) + was
      && log == told + Together(Abouts(moved), Micros(now))
    }

    lemma LeftAtFirst(list: seq<Job>, marked: set<Job>, now: Timeval)
      requires ValidJobs() && list == jobs && marked == Chosen() && clock == Micros(now)
      ensures Left(list, 0, marked) && Unmarked(list, 0) && Moved([]) && Records([]) == []
      ensures Those(list[..0], marked) == [] && Advanced(list, [], history, log, now)
    {
      hide ValidJobs, Job.Named;
      JobsOf();
      ExceptNothing(list);
      assert Items<Job>([]) == {} && Reversed<Job>([]) + history == history;
      assert log + Together(Abouts([]), Micros(now)) == log;
    }

    lemma NextLeft(list: seq<Job>, i: nat, marked: set<Job>)
      requires Left(list, i, marked) && i < |list|
      ensures list[i] in repr && !list[i].done && (list[i].chosen <==> list[i] in marked)
      ensures forall k :: 0 <= k < |list| ==> list[k] in repr
      ensures Those(list[..i + 1], marked) == Those(list[..i], marked) + if list[i] in marked then [list[i]] else []
      ensures Those(list[..i], marked) <= Those(list, marked)
    {
      hide Those;
      assert LeftAt(list, i, marked);
      ThoseMore(list, marked, i);
      ThoseBefore(list, marked, i);
    }

    lemma NextOfThose(list: seq<Job>, marked: set<Job>, i: nat)
      requires i < |list| && list[i] in marked
      ensures Those(list[..i], marked) + [list[i]] <= Those(list, marked)
    {
      hide Those;
      ThoseMore(list, marked, i);
      ThoseBefore(list, marked, i + 1);
    }

    lemma LeftAfter(list: seq<Job>, i: nat, marked: set<Job>)
      requires Left(list, i, marked) && i < |list| && !list[i].chosen && Unmarked(list, i)
      ensures Left(list, i + 1, marked) && Unmarked(list, i + 1)
    {
    }

    /** The next job of the list goes into the history. */
    method MoveNext(list: seq<Job>, i: nat, j: Job, now: Timeval, ghost marked: set<Job>, ghost moved: seq<Job>,
                    ghost was: seq<Job>, ghost told: seq<Sending<RecordClass>>)
      requires ValidJobs() && Paced() && i < |list| && j == list[i] && Left(list, i, marked) && Unmarked(list, i)
      requires Moved(moved) && Advanced(list, moved, was, told, now)
      modifies this`jobs, this`history, this`log, this`sent, j`done, j`timeEvent, j`delivery
      ensures ValidJobs() && Paced() && Left(list, i + 1, marked) && Unmarked(list, i + 1)
      ensures Moved(moved + [j]) && Advanced(list, moved + [j], was, told, now)
      ensures Records(moved + [j]) == Records(moved) + [j.record]
    {
      hide ValidJobs, Paced, Job.Named, Except, Without, Together;
      assert LeftAt(list, i, marked);
      MarkDone(j, now, true);
      forall k | i + 1 <= k
        ensures LeftAt(list, k, marked)
      {
        assert old(LeftAt(list, k, marked)) && Apart(list, i, k);
      }
      AdvancedBy(list, moved, j, was, told, Micros(now));
    }

    static lemma AdvancedBy(list: seq<Job>, moved: seq<Job>, j: Job, was: seq<Job>, told: seq<Sending<RecordClass>>,
                            at: int)
      ensures Except(list, Items(moved + [j])) == Without(Except(list, Items(moved)), j)
      ensures Reversed(moved + [j]) + was == [j] + (Reversed(moved) + was)
      ensures told + Together(Abouts(moved + [j]), at) == told + Together(Abouts(moved), at) + [Sending(j.about, at)]
    {
      hide Except, Without, Reversed, Together;
      assert Items(moved + [j]) == Items(moved) + {j};
      ExceptMore(list, Items(moved), j);
      ReversedAppend(moved, j);
      assert Abouts(moved + [j]) == Abouts(moved) + [j.about];
      TogetherMore(Abouts(moved), j.about, at);
    }

    lemma NoneChosen(list: seq<Job>, moved: seq<Job>, now: Timeval, was: seq<Job>, told: seq<Sending<RecordClass>>)
      requires ValidJobs() && Paced() && Unmarked(list, |list|) && Advanced(list, moved, was, told, now)
      ensures Valid()
      ensures jobs == Except(list, Items(moved)) && history == Reversed(moved) + was
      ensures log == told + Together(Abouts(moved), Micros(now))
    {
      hide ValidJobs, Paced, Job.Named, Except;
      JobsOf();
      ExceptHolds(list, Items(moved));
      forall j | j in repr && !j.done
        ensures !j.chosen
      {
        var k :| 0 <= k < |list| && list[k] == j;
      }
    }

    /** Unmarks all jobs of a list from one on. */
    method Unmark(list: seq<Job>, from: nat)
      requires from <= |list| && (forall k :: 0 <= k < |list| ==> list[k] in repr) && Unmarked(list, from)
      modifies repr`chosen
      ensures Unmarked(list, |list|)
    {
      for i := from to |list|
        invariant forall k :: from <= k < i ==> !list[k].chosen
        invariant forall j :: j in repr ==> !j.chosen || j.chosen == old(j.chosen)
      {
        list[i].chosen := false;
      }
    }

    lemma RecordProper(j: Job)
      requires ValidJobs() && j in repr
      ensures Proper(j.record) && Probable(j.record)
    {
      hide Listed, OneJobEach, Timed, Proper;
      assert j.Named();
    }

    method Send(p: Packet, n: nat, ghost keys: seq<Key>, ghost records: seq<Record>) returns (ghost m: Message)
      requires Filling(p, keys, records) && n == |records|
      modifies this`packets, p.data
      ensures m.keys == keys && m.records == records && WellFormedMessage(m) && packets == old(packets) + [m.packet]
    {
      hide Proper, Askable, WithRecords, WithKeys, Carries, Packet.Field, U16At;
      ghost var c := Holding(keys, records);
      SetCount(p, FIELD_NSCOUNT, n % 0x10000, c);
      var packet := BytesOf(p, c);
      packets := packets + [packet];
      m := Message(keys, records, packet);
    }

    /** A probe in a packet of its own, made to measure. */
    method SendAlone(j: Job, now: Timeval) returns (ghost m: Option<Message>)
      requires Valid() && j in repr && !j.done && clock == Micros(now)
      modifies this`jobs, this`history, this`log, this`sent, this`packets, j`done, j`timeEvent, j`delivery
      ensures Valid() && Moved([j]) && clock == Micros(now)
      ensures jobs == Without(old(jobs), j) && history == [j] + old(history)
      ensures log == old(log) + if m.Some? then [Sending(j.about, Micros(now))] else []
      ensures Probable(j.record) && (m.Some? <==> FitsOwnPacket(j.record))
      ensures m.None? ==> packets == old(packets)
      ensures m.Some? ==> packets == old(packets) + [m.value.packet] && WellFormedMessage(m.value)
      ensures m.Some? ==> m.value.keys == [Question(j.record)] && m.value.records == [j.record]
    {
      hide ValidJobs, Paced, Own, Job.Named, Packet.Field, Packet.Valid, Carries, Filling, RecordEstimate, KeyEstimate,
           Probable, WellFormedMessage, Without;
      RecordProper(j);
      var size := KeyEstimate(j.record.key) + RecordEstimate(j.record) + HEADER_SIZE;
      var p, b := MakeOwn(j.record, size);
      m := None;
      if b {
        ghost var message := Send(p, 1, [Question(j.record)], [j.record]);
        m := Some(message);
      }
      MarkDone(j, now, b);
    }

    method MakeOwn(r: Record, size: nat) returns (p: Packet, b: bool)
      requires Probable(r) && size == OwnSize(r)
      ensures fresh(p) && fresh(p.data) && b == FitsOwnPacket(r)
      ensures b ==> Filling(p, [Question(r)], [r])
    {
      hide RecordTyped, RecordValid, RecordWellFormed, RecordEstimate, KeyEstimate, WithKey, WithRecord, NormalForm,
           TableInside, TableOk,
           Packet.Field, Canon, Readable, Join;
      QuestionAskable(r);
      NormalOfProbable(r);
      OwnHolding(r);
      p := EmptyQuery(size + EXTRA_SIZE);
      var name := NewName(r.key.name);
      var k := Key(name.value, r.key.clazz, TYPE_ANY);
      b := AddKey(p, k, false, NOTHING);
      if b {
        b := AddRecord(p, r, false, WithKey(NOTHING, k, false));
      } else {
        RecordTakes(WithKey(NOTHING, k, false), r);
      }
      if b {
        SetCount(p, FIELD_QDCOUNT, 1, Own(r));
      }
    }

    /** elapse_callback. A job in the history is dropped. Otherwise the probe is sent: together with others if the
        estimates say that it fits, and in a packet of its own if not. */
    method Elapse(j: Job, now: Timeval)
      returns (ghost m: Option<Message>, ghost moved: seq<Job>, ghost chosen: set<Job>, ghost end: nat)
      requires Valid() && j in repr && clock <= Micros(now)
      requires j.timeEvent.Some? && Micros(j.timeEvent.value) <= Micros(now)
      modifies this`jobs, this`history, this`repr, this`packets, this`log, this`sent, this`clock
      modifies repr`chosen, repr`done, repr`timeEvent, repr`delivery
      ensures Valid() && Probable(j.record) && clock == Micros(now)
      ensures old(j.done) ==>
                m.None? && jobs == old(jobs) && history == Without(old(history), j) && repr == old(repr) - {j}
      ensures !old(j.done) ==> if Shares(j.record) then m.Some?
              else moved == [j] && (m.Some? <==> FitsOwnPacket(j.record))
      ensures m.None? ==> packets == old(packets) && log == old(log)
      ensures m.Some? ==> packets == old(packets) + [m.value.packet] && WellFormedMessage(m.value)
      // the first question is for the probe whose time has come: its name and class, and any type
      ensures m.Some? ==> m.value.keys != [] && m.value.keys[0] == Key(j.record.key.name, j.record.key.clazz, 255)
      // the packet is filled up with other probes; the records that are chosen are sent in the order of the list, and
      // one that is not does not fit behind those before it
      ensures !old(j.done) && Shares(j.record) ==> m.Some? && Assembled(old(jobs), m.value, moved, j, chosen, end)
      // the jobs that went into the history are some of the scheduled ones, each once and in order
      ensures !old(j.done) ==> jobs == Except(old(jobs), Items(moved)) && history == Reversed(moved) + old(history)
      ensures !old(j.done) ==> NoDuplicates(moved) && moved == Those(old(jobs), Items(moved))
      ensures !old(j.done) ==> forall h :: h in moved <==> h in old(jobs) && h !in jobs
      ensures forall h :: h in moved && h in old(jobs) ==> h.done && !old(h.done)
      // the records in the packet are theirs; none of them was sent twice, or within 150 ms before
      ensures m.Some? ==> m.value.records == Records(moved) && log == old(log) + Together(Abouts(moved), Micros(now))
      ensures m.Some? ==> forall i, k :: 0 <= i < k < |moved| ==> moved[i].about != moved[k].about
      ensures m.Some? ==> forall i, s :: 0 <= i < |moved| && s in old(log) && s.about == moved[i].about ==>
                s.at + 150000 <= Micros(now)
      ensures forall h :: h in moved ==> h.Named()
    {
      hide ValidJobs, Paced, Own, Job.Named, Packet.Field, Filling, RecordEstimate, KeyEstimate, Probable,
           WellFormedMessage, FitsOwnPacket, Matched, Except, Reversed, Together, Those, Idle, Records, Abouts, Without,
           Assembled;
      m, moved, chosen, end := None, [], {}, 0;
      RecordProper(j);
      JobsOf();
      Tick(now);
      if j.done {
        IsOver(j, now);
        Forget(j, now);
        return;
      }
      m, moved, chosen, end := Transmit(j, now);
      MovedOnes(old(jobs), jobs, moved);
      if m.Some? {
        MovedApart(old(log), moved);
      }
    }

    /** A packet for which jobs were chosen from a list, and whose records are those of the ones that moved. */
    ghost predicate Assembled(list: seq<Job>, m: Message, moved: seq<Job>, j: Job, chosen: set<Job>, end: nat) {
      && AllAskable(m.keys) && Packed(list, m.keys, chosen, end) && j in chosen
      && moved <= Those(list, chosen) && m.records == Records(moved)
      && (|moved| < |Those(list, chosen)| ==>
            var r := Those(list, chosen)[|moved|].record;
            && Proper(r) && AllProper(m.records)
            && HEADER_SIZE + |WithRecord(Holding(m.keys, m.records), r, false).body| > Capacity(mtu))
    }

    lemma AssembledSo(p: Packet, list: seq<Job>, m: Message, moved: seq<Job>, j: Job, chosen: set<Job>, end: nat)
      requires WellFormedMessage(m) && Packed(list, m.keys, chosen, end) && j in chosen && m.records == Records(moved)
      requires moved <= Those(list, chosen) && p.data.Length == Capacity(mtu)
      requires |moved| < |Those(list, chosen)| ==>
                 var r := Those(list, chosen)[|moved|].record;
                 Proper(r) && HEADER_SIZE + |WithRecord(Holding(m.keys, m.records), r, false).body| > p.data.Length
      ensures Assembled(list, m, moved, j, chosen, end)
    {
      hide Packed, Those, Proper, Askable, WithRecord, Holding;
    }

    /** A probe whose time has come is sent. */
    method Transmit(j: Job, now: Timeval)
      returns (ghost m: Option<Message>, ghost moved: seq<Job>, ghost chosen: set<Job>, ghost end: nat)
      requires Valid() && j in repr && !j.done && clock == Micros(now)
      modifies this`jobs, this`history, this`packets, this`log, this`sent
      modifies repr`chosen, repr`done, repr`timeEvent, repr`delivery
      ensures Valid() && Probable(j.record) && clock == Micros(now)
      ensures if Shares(j.record) then m.Some? else moved == [j] && (m.Some? <==> FitsOwnPacket(j.record))
      ensures m.None? ==> packets == old(packets) && log == old(log)
      ensures m.Some? ==> packets == old(packets) + [m.value.packet] && WellFormedMessage(m.value)
      ensures m.Some? ==> m.value.keys != [] && m.value.keys[0] == Question(j.record)
      ensures Shares(j.record) ==> Assembled(old(jobs), m.value, moved, j, chosen, end)
      ensures jobs == Except(old(jobs), Items(moved)) && history == Reversed(moved) + old(history) && Moved(moved)
      ensures NoDuplicates(moved) && moved == Those(old(jobs), Items(moved))
      ensures m.Some? ==> m.value.records == Records(moved) && log == old(log) + Together(Abouts(moved), Micros(now))
    {
      hide ValidJobs, Paced, Own, Job.Named, Packet.Field, Filling, RecordEstimate, KeyEstimate, Probable, Moved,
           WellFormedMessage, FitsOwnPacket, Matched, Except, Reversed, Together, Those, Idle, Records, Abouts, Without,
           Packed, WithRecord, Holding, Assembled, Chosen, Carries, Asking, Proper, Question;
      chosen, end := {}, 0;
      RecordProper(j);
      JobsOf();
      var p := StartQuery();
      var ok, n;
      ghost var keys;
      ok, n, keys, end := FillQuestions(p, j);
      if ok {
        SetQuestions(p, n, keys);
        ghost var marked := Chosen();
        chosen := marked;
        n, moved := AppendRecords(p, now, keys);
        SelectedInOrder(old(jobs), marked, moved);
        ghost var message := Send(p, n, keys, Records(moved));
        AssembledSo(p, old(jobs), message, moved, j, chosen, end);
        m := Some(message);
      } else {
        m := SendAlone(j, now);
        moved := [j];
        MovedAlone(old(jobs), j, Micros(now));
      }
    }

    /** The probe may share a packet: its estimates fit. */
    predicate Shares(r: Record)
      requires Probable(r)
    {
      HEADER_SIZE + KeyEstimate(r.key) + RecordEstimate(r) <= Capacity(mtu)
    }

    lemma IsOver(j: Job, now: Timeval)
      requires ValidJobs() && j in repr && j.done && j.timeEvent.Some? && Micros(j.timeEvent.value) <= Micros(now)
      ensures Micros(now) >= Micros(j.delivery) + GAP
    {
      hide Listed, OneJobEach, Job.Named;
      assert Timed(j);
    }

    static lemma MovedAlone(was: seq<Job>, j: Job, at: int)
      requires NoDuplicates(was) && j in was
      ensures Except(was, Items([j])) == Without(was, j) && Reversed([j]) == [j] && Records([j]) == [j.record]
      ensures NoDuplicates([j]) && [j] == Those(was, Items([j])) && Together(Abouts([j]), at) == [Sending(j.about, at)]
    {
      hide Except, Without, Those;
      ThoseOne(was, j);
      assert Items([j]) == {j};
    }

    static lemma MovedOnes(was: seq<Job>, now: seq<Job>, moved: seq<Job>)
      requires moved == Those(was, Items(moved)) && now == Except(was, Items(moved))
      ensures forall h :: h in moved <==> h in was && h !in now
    {
      hide Those, Except;
      ThoseHolds(was, Items(moved));
      ExceptHolds(was, Items(moved));
    }

    lemma MovedApart(told: seq<Sending<RecordClass>>, moved: seq<Job>)
      requires Paced() && log == told + Together(Abouts(moved), clock)
      ensures forall i, k :: 0 <= i < k < |moved| ==> moved[i].about != moved[k].about
      ensures forall i, s :: 0 <= i < |moved| && s in told && s.about == moved[i].about ==> s.at + GAP <= clock
    {
      hide AllSpaced, Latest, Guarded, Together, Held;
      var ks := Abouts(moved);
      assert forall i :: 0 <= i < |moved| ==> ks[i] == moved[i].about;
      TogetherSpaced(told, ks, clock, GAP);
    }

    method StartQuery() returns (p: Packet)
      ensures fresh(p) && fresh(p.data) && Asking(p, []) && p.resSize == 0
      ensures p.size == HEADER_SIZE && p.data.Length == Capacity(mtu)
    {
      hide Carries, Packet.Field;
      p := EmptyQuery(mtu);
      NothingHolding();
    }

    method SetQuestions(p: Packet, n: nat, ghost keys: seq<Key>)
      requires Asking(p, keys) && n == |keys|
      modifies p.data
      ensures Filling(p, keys, [])
    {
      hide WithKey, Askable, TableInside, Packet.Field;
      NothingMore(WithKeys(NOTHING, keys));
      SetCount(p, FIELD_QDCOUNT, n % 0x10000, WithKeys(NOTHING, keys));
    }

    /** avahi_probe_scheduler_clear */
    method Clear()
      requires Valid()
      modifies this`jobs, this`history, this`repr, this`log, this`sent
      ensures Valid() && jobs == [] && history == [] && log == []
    {
      hide ValidJobs, Job.Named, AllSpaced, Latest, Guarded, Held;
      log, sent := [], map[];
      NothingSent(Held(), clock, GAP);
      while jobs != []
        invariant Valid() && log == [] && sent == map[]
        decreases |jobs| + |history|
      {
        JobsOf();
        JobFree(jobs[0]);
        NothingSent(Held(), clock, GAP);
      }
      while history != []
        invariant Valid() && log == [] && sent == map[] && jobs == []
        decreases |history|
      {
        JobsOf();
        JobFree(history[0]);
        NothingSent(Held(), clock, GAP);
      }
    }
  }

  /** The size of the packet that is made for a probe that fits no packet of the usual size. */
  function OwnSize(r: Record): nat {
    KeyEstimate(r.key) + RecordEstimate(r) + HEADER_SIZE
  }

  /** A probe alone: its question and its record. */
  function Own(r: Record): Contents
    requires Probable(r)
  {
    QuestionAskable(r);
    WithRecord(WithKey(NOTHING, Question(r), false), r, false)
  }

  predicate FitsOwnPacket(r: Record)
    requires Probable(r)
  {
    HEADER_SIZE + |Own(r).body| <= Capacity(OwnSize(r) + EXTRA_SIZE)
  }

  lemma OwnHolding(r: Record)
    requires Probable(r)
    ensures AllAskable([Question(r)]) && AllProper([r]) && Holding([Question(r)], [r]) == Own(r)
  {
    hide Proper, WithKey, WithRecord, Askable, NormalForm, WithKeys, WithRecords;
    QuestionAskable(r);
    OneKey(Question(r));
    var c := WithKeys(NOTHING, [Question(r)]);
    NothingMore(c);
    OneMoreAnswer(c, [], r);
    assert [] + [r] == [r];
  }

  lemma OneKey(k: Key)
    requires Askable(k)
    ensures AllAskable([k]) && WithKeys(NOTHING, [k]) == WithKey(NOTHING, k, false)
  {
    hide Askable, WithKey;
    OneMoreKey([], k);
    assert [] + [k] == [k];
  }

  lemma RecordTakes(c: Contents, r: Record)
    requires Proper(r)
    ensures |WithRecord(c, r, false).body| >= |c.body|
  {
    hide WireOf, RecordTyped, RecordValid, RecordWellFormed;
    RecordWritable(HEADER_SIZE + |c.body|, c.table, r, false);
  }

  /** In a packet of its own the name of the record is a pointer to the name of the question. */
  lemma OwnLength(r: Record)
    requires Probable(r) && r.key.name != []
    ensures NameWire(HEADER_SIZE, map[], r.key.name).Wired?
    ensures |Own(r).body| <= |NameWire(HEADER_SIZE, map[], r.key.name).bytes| + 16 + DataEstimate(r) + NamesIn(r) - 1
    ensures !r.data.Ptr? && !r.data.Srv? ==>
              |Own(r).body| == |NameWire(HEADER_SIZE, map[], r.key.name).bytes| + 16 + DataEstimate(r)
  {
    hide NameWire, U16, U32, RecordTyped, WellFormedName, NormalForm, RdataWire, RecordEstimate, KeyEstimate,
         RecordValid;
    QuestionAskable(r);
    var name := r.key.name;
    NameLength(HEADER_SIZE, map[], name);
    EntriesStay(HEADER_SIZE, map[], name, name);
    var c := WithKey(NOTHING, Question(r), false);
    var n := NameWire(HEADER_SIZE, map[], name);
    assert [] + (n.bytes + (U16(TYPE_ANY) + U16(r.key.clazz))) == n.bytes + (U16(TYPE_ANY) + U16(r.key.clazz));
    assert |c.body| == |n.bytes| + 4 && c.table == n.table;
    RecordWritable(HEADER_SIZE + |c.body|, c.table, r, false);
    NameWirePointer(HEADER_SIZE + |c.body|, c.table, name);
    DataWithin(HEADER_SIZE + |c.body| + 12, c.table, r);
  }

  lemma RootLength(r: Record)
    requires Probable(r) && r.key.name == [] && !r.data.Ptr? && !r.data.Srv?
    ensures |Own(r).body| == 16 + DataEstimate(r)
  {
    hide U16, U32, RecordTyped, NormalForm, RdataWire, RecordEstimate, KeyEstimate, RecordValid;
    QuestionAskable(r);
    var c := WithKey(NOTHING, Question(r), false);
    assert [] + ([0] + (U16(TYPE_ANY) + U16(r.key.clazz))) == [0] + (U16(TYPE_ANY) + U16(r.key.clazz));
    assert |c.body| == 5 && c.table == map[];
    RecordWritable(HEADER_SIZE + 5, c.table, r, false);
    DataWithin(HEADER_SIZE + 16, c.table, r);
  }

  /** A probe fits the packet that is made for it whenever its name has three bytes or more. Where there is no name in
      its data it does not fit exactly if its name has one byte. */
  lemma OwnPacketFits(r: Record)
    requires Probable(r)
    ensures |r.key.name| >= 3 ==> FitsOwnPacket(r)
    ensures !r.data.Ptr? && !r.data.Srv? ==> (FitsOwnPacket(r) <==> |r.key.name| != 1)
  {
    hide NameWire, Proper, WellFormedName, NormalForm, Own, Unescaped;
    QuestionAskable(r);
    var name := r.key.name;
    if name == [] {
      if !r.data.Ptr? && !r.data.Srv? {
        RootLength(r);
      }
    } else {
      OwnLength(r);
      NameLength(HEADER_SIZE, map[], name);
      if |name| == 1 {
        Scheduler.NormalOfProbable(r);
        OneByteUnescaped(name);
        UnescapedLength(HEADER_SIZE, map[], name);
      }
    }
  }

  lemma OneByteUnescaped(name: Text)
    requires |name| == 1 && WellFormedName(name) && NormalForm(name) == name
    ensures Unescaped(name)
  {
    NormalNameNotDot(name);
    if name == [BACKSLASH] {
      assert NextToken(name).Malformed?;
      assert Lex(name).None?;
    }
  }
}
