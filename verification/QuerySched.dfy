/** The query scheduler of avahi-core/query-sched.c: duplicate question suppression (section 7.3 of
    RFC 6762) and known-answer lists that may take several packets (section 7.2). */
module QuerySched {
  import opened Utf8
  import opened Domain
  import opened Rr
  import opened RecordWire
  import opened Wire
  import opened Timeval
  import opened DnsPacket
  import opened PacketContents
  import opened Lists
  import opened Estimates
  import opened Spacing
  import opened WireFormat
  import C = Cache

  const HISTORY_MSEC := 100
  const DEFER_MSEC := 100
  const GAP := HISTORY_MSEC * 1000

  /** A time after so many milliseconds. */
  function After(now: Timeval, msec: nat): Timeval {
    if msec > 0 then Add(now, msec * 1000) else now
  }

  lemma AfterMoves(now: Timeval, msec: nat)
    ensures Micros(After(now, msec)) == Micros(now) + msec * 1000
  {
    AddMoves(now, msec * 1000);
  }

  // ---------------------------------------------------------------- known answers

  /** A packet that was sent, and what was put into it. */
  datatype Message = Message(keys: seq<Key>, answers: seq<Record>, packet: Text)

  /** The packet says how many questions and answers it holds, whether another one follows, and holds them. */
  ghost predicate WellFormedMessage(m: Message, truncated: bool) {
    && AllAskable(m.keys) && AllProper(m.answers) && |m.packet| >= HEADER_SIZE
    && m.packet[HEADER_SIZE..] == WithRecords(WithKeys(NOTHING, m.keys), Unflagged(m.answers)).body
    && U16At(m.packet, 2 * FIELD_QDCOUNT) == |m.keys| % 0x10000
    && U16At(m.packet, 2 * FIELD_ANCOUNT) == |m.answers| % 0x10000
    && U16At(m.packet, 2 * FIELD_FLAGS) == (if truncated then FLAG_TC else 0)
  }

  /** Every message but the last one of a run has the TC bit. */
  ghost predicate WellFormedRun(ms: seq<Message>, last: bool) {
    forall i :: 0 <= i < |ms| ==> WellFormedMessage(ms[i], !(last && i == |ms| - 1))
  }

  /** The questions are in the first message. */
  ghost predicate AskedFirst(ms: seq<Message>, keys: seq<Key>) {
    ms != [] ==> ms[0].keys == keys && forall i :: 0 < i < |ms| ==> ms[i].keys == []
  }

  function Packets(ms: seq<Message>): (ps: seq<Text>)
    ensures |ps| == |ms| && forall i :: 0 <= i < |ms| ==> ps[i] == ms[i].packet
  {
    seq(|ms|, i requires 0 <= i < |ms| => ms[i].packet)
  }

  function Answers(ms: seq<Message>): seq<Record> {
    if ms == [] then [] else Answers(ms[..|ms| - 1]) + ms[|ms| - 1].answers
  }

  /** The records of `sent` are those of `all`, in order and each once; only records that do not fit into
      a packet of their own may be missing. */
  ghost predicate Keeps(all: seq<Record>, sent: seq<Record>, capacity: nat)
    requires AllProper(all)
  {
    if all == [] then sent == []
    else
      var front, r := all[..|all| - 1], all[|all| - 1];
      || (sent != [] && sent[|sent| - 1] == r && Keeps(front, sent[..|sent| - 1], capacity))
      || (!FitsAlone(r, false, capacity) && Keeps(front, sent, capacity))
  }

  lemma KeepsSent(all: seq<Record>, sent: seq<Record>, capacity: nat, r: Record)
    requires AllProper(all) && Keeps(all, sent, capacity) && Proper(r)
    ensures AllProper(all + [r]) && Keeps(all + [r], sent + [r], capacity)
  {
    hide FitsAlone, Proper;
    assert (all + [r])[..|all|] == all && (sent + [r])[..|sent|] == sent;
  }

  lemma KeepsDropped(all: seq<Record>, sent: seq<Record>, capacity: nat, r: Record)
    requires AllProper(all) && Keeps(all, sent, capacity) && Proper(r) && !FitsAlone(r, false, capacity)
    ensures AllProper(all + [r]) && Keeps(all + [r], sent, capacity)
  {
    hide FitsAlone, Proper;
    assert (all + [r])[..|all|] == all;
  }

  /** There is no room for the record behind what a message holds. */
  ghost predicate NoRoomFor(m: Message, r: Record, capacity: nat) {
    && AllAskable(m.keys) && AllProper(m.answers) && Proper(r)
    && HEADER_SIZE + |WithRecord(Holding(m.keys, m.answers), r, false).body| > capacity
  }

  /** A message ends where the next record does not fit behind it: the answers up to it are those before that record. */
  ghost predicate EndsAt(ms: seq<Message>, i: nat, all: seq<Record>, cut: nat, capacity: nat)
    requires i < |ms|
  {
    && cut < |all| && AllProper(all[..cut]) && Keeps(all[..cut], Answers(ms[..i + 1]), capacity)
    && NoRoomFor(ms[i], all[cut], capacity)
  }

  ghost predicate CutsAt(ms: seq<Message>, all: seq<Record>, cuts: seq<nat>, capacity: nat) {
    |cuts| <= |ms| && forall i :: 0 <= i < |cuts| ==> EndsAt(ms, i, all, cuts[i], capacity)
  }

  lemma NoCuts(ms: seq<Message>, all: seq<Record>, capacity: nat)
    ensures CutsAt(ms, all, [], capacity)
  {
  }

  lemma CutsStay(ms: seq<Message>, more: seq<Message>, all: seq<Record>, cuts: seq<nat>, capacity: nat)
    requires CutsAt(ms, all, cuts, capacity)
    ensures CutsAt(ms + more, all, cuts, capacity)
  {
    hide Answers, Keeps, NoRoomFor;
    forall i | 0 <= i < |cuts|
      ensures EndsAt(ms + more, i, all, cuts[i], capacity)
    {
      assert EndsAt(ms, i, all, cuts[i], capacity);
      assert (ms + more)[..i + 1] == ms[..i + 1];
    }
  }

  lemma CutsMore(ms: seq<Message>, m: Message, all: seq<Record>, cuts: seq<nat>, cut: nat, capacity: nat)
    requires CutsAt(ms, all, cuts, capacity) && |cuts| == |ms| && cut < |all| && AllProper(all[..cut])
    requires Keeps(all[..cut], Answers(ms) + m.answers, capacity) && NoRoomFor(m, all[cut], capacity)
    ensures CutsAt(ms + [m], all, cuts + [cut], capacity)
  {
    hide Answers, Keeps, NoRoomFor;
    CutsStay(ms, [m], all, cuts, capacity);
    AnswersAppend(ms, m);
    assert (ms + [m])[..|ms| + 1] == ms + [m];
    forall i | 0 <= i < |cuts| + 1
      ensures EndsAt(ms + [m], i, all, (cuts + [cut])[i], capacity)
    {
      assert i < |cuts| ==> EndsAt(ms + [m], i, all, cuts[i], capacity);
    }
  }

  lemma AnswersAppend(ms: seq<Message>, m: Message)
    ensures Answers(ms + [m]) == Answers(ms) + m.answers
  {
    assert (ms + [m])[..|ms|] == ms;
  }

  lemma PacketsAppend(ms: seq<Message>, m: Message)
    ensures Packets(ms + [m]) == Packets(ms) + [m.packet]
  {
  }

  class Job {
    const key: Key
    const id: nat
    /** What the key is compared by. */
    ghost const about: KeyClass
    /** How many jobs were made before this one. */
    ghost const serial: nat
    var nPosted: int
    var done: bool
    var delivery: Timeval
    var timeEvent: Option<Timeval>

    ghost predicate Named() {
      Askable(key) && about == ClassOf(key)
    }

    /** The id is the serial number as far as an unsigned int can tell. */
    ghost predicate Numbered(next: nat) {
      id == serial % UINT_RANGE && serial < next
    }

    constructor (key: Key, id: nat, done: bool, ghost serial: nat)
      requires Askable(key)
      ensures this.key == key && Named() && this.id == id && this.serial == serial && this.done == done && nPosted == 1
      ensures timeEvent.None?
    {
      this.key, about, this.id, this.serial, this.done := key, ClassOf(key), id, serial, done;
      nPosted, delivery, timeEvent := 1, ZERO, None;
    }
  }

  class Scheduler {
    const mtu: nat
    const cache: C.Cache
    var nextId: nat
    var jobs: seq<Job>
    var history: seq<Job>
    var knownAnswers: seq<Record>
    /** The packets handed to the interface. */
    var packets: seq<Text>

    /** All jobs; the questions sent since the lists were cleared, and when each was sent last; the last reading
        of the clock; and the number of jobs made so far. */
    ghost var repr: set<Job>
    ghost var log: seq<Sending<KeyClass>>
    ghost var sent: map<KeyClass, int>
    ghost var clock: int
    ghost var made: nat

    /** A query for the key fits into a packet. */
    predicate CanSend(k: Key) {
      Askable(k) && HEADER_SIZE + |WithKey(NOTHING, k, false).body| <= Capacity(mtu)
    }

    ghost predicate Scheduled(j: Job)
      reads j
    {
      !j.done && j.nPosted >= 1 && j.timeEvent == Some(j.delivery)
    }

    ghost predicate Past(j: Job)
      reads j
    {
      j.done && j.timeEvent == Some(After(j.delivery, HISTORY_MSEC))
    }

    /** The jobs of the history: which question was sent, or seen, and when. */
    ghost function Held(): map<Job, Sending<KeyClass>>
      reads this`repr, repr`done, repr`delivery
    {
      map j | j in repr && j.done :: Sending(j.about, Micros(j.delivery))
    }

    lemma HeldBy(j: Job)
      ensures j in repr && j.done <==> j in Held()
      ensures j in Held() ==> Held()[j] == Sending(j.about, Micros(j.delivery))
    {
    }

    /** No question was sent twice within a tenth of a second, and the history keeps it so. */
    ghost predicate Logged()
      reads this`repr, this`log, this`sent, this`clock, repr`done, repr`delivery
    {
      AllSpaced(log, GAP) && Latest(log, sent) && Guarded(sent, Held(), clock, GAP)
    }

    ghost predicate OneJobEach()
      reads this`repr
    {
      forall a, b | a in repr && b in repr && a.about == b.about :: a == b
    }

    /** The lists hold the jobs: each in the list its state names, and once. */
    ghost predicate Listed()
      reads this`jobs, this`history, this`repr, repr`done
    {
      && NoDuplicates(jobs) && NoDuplicates(history)
      && (forall j :: j in jobs ==> j in repr && !j.done)
      && (forall j :: j in history ==> j in repr && j.done)
      && (forall j :: j in repr ==> if j.done then j in history else j in jobs)
    }

    ghost predicate ValidJobs()
      reads this`jobs, this`history, this`repr, this`log, this`sent, this`clock, this`made, this`nextId, repr
    {
      && Listed()
      && (forall j :: j in repr ==> j.Named() && j.Numbered(made))
      && OneJobEach()
      && (forall a, b | a in repr && b in repr && a.serial == b.serial :: a == b)
      && nextId == made % UINT_RANGE
      && (forall j :: j in repr ==> if j.done then Past(j) else Scheduled(j))
      && Logged()
    }

    ghost predicate Valid()
      reads this, repr
    {
      ValidJobs() && knownAnswers == []
    }

    constructor (mtu: nat, cache: C.Cache)
      ensures Valid() && jobs == [] && history == [] && packets == [] && log == []
      ensures this.mtu == mtu && this.cache == cache
    {
      this.mtu, this.cache := mtu, cache;
      nextId, jobs, history, knownAnswers, packets := 0, [], [], [], [];
      repr, log, sent, clock, made := {}, [], map[], 0, 0;
    }

    /** Live ids can only be equal when at least 2^32 jobs were made between the two. */
    lemma IdsDistinct(a: Job, b: Job)
      requires Valid() && a in repr && b in repr && a != b && a.id == b.id
      ensures a.serial + 0x1_0000_0000 <= b.serial || b.serial + 0x1_0000_0000 <= a.serial
    {
      hide Listed, OneJobEach, Logged;
      SameResidue(a.serial, b.serial);
    }

    /** A packet on the way with these questions and answers. */
    ghost predicate Filling(p: Packet, keys: seq<Key>, answers: seq<Record>)
      reads p, p.data
    {
      && AllAskable(keys) && AllProper(answers) && Carries(p, Holding(keys, answers))
      && p.Field(FIELD_QDCOUNT) == |keys| % 0x10000 && p.Field(FIELD_FLAGS) == 0 && p.data.Length == Capacity(mtu)
    }

    /** Fills in the count of answers and hands the packet to the interface. */
    method Send(p: Packet, n: nat, more: bool, ghost keys: seq<Key>, ghost answers: seq<Record>)
      returns (ghost m: Message)
      requires Filling(p, keys, answers) && n == |answers|
      modifies this`packets, p.data
      ensures m.keys == keys && m.answers == answers && WellFormedMessage(m, more)
      ensures packets == old(packets) + [m.packet]
    {
      hide Proper, Askable, WithRecords, WithKeys, Carries, Packet.Field, U16At;
      ghost var c := Holding(keys, answers);
      CarriesHeader(p, c);
      if more {
        var flags := p.GetField(FIELD_FLAGS);
        SetCount(p, FIELD_FLAGS, if flags / FLAG_TC % 2 == 1 then flags else flags + FLAG_TC, c);
      }
      SetCount(p, FIELD_ANCOUNT, n % 0x10000, c);
      var packet := BytesOf(p, c);
      packets := packets + [packet];
      m := Message(keys, answers, packet);
    }

    /** The packet is sent with the TC bit, and an empty one takes its place. */
    method SendAndGoOn(p: Packet, n: nat, ghost keys: seq<Key>, ghost answers: seq<Record>)
      returns (q: Packet, ghost m: Message)
      requires Filling(p, keys, answers) && n == |answers|
      modifies this`packets, p.data
      ensures m.keys == keys && m.answers == answers && WellFormedMessage(m, true)
              && packets == old(packets) + [m.packet]
      ensures fresh(q) && fresh(q.data) && Filling(q, [], []) && q.size == HEADER_SIZE
    {
      hide WellFormedMessage, TableOk, Proper, Askable, WithRecord, WithKey, Packet.Field;
      m := Send(p, n, true, keys, answers);
      q := EmptyQuery(mtu);
      NothingHolding();
    }

    static ghost predicate NoRoom(keys: seq<Key>, answers: seq<Record>, r: Record, capacity: nat)
      requires AllAskable(keys) && AllProper(answers) && Proper(r)
    {
      HEADER_SIZE + |WithRecord(Holding(keys, answers), r, false).body| > capacity
    }

    /** One more answer, if there is room for it. */
    method TryAnswer(p: Packet, r: Record, ghost keys: seq<Key>, ghost answers: seq<Record>) returns (ok: bool)
      requires Filling(p, keys, answers) && Proper(r)
      modifies p`size, p`nameTable, p.data
      ensures AllAskable(keys) && AllProper(answers)
      ensures if ok then Filling(p, keys, answers + [r])
              else Filling(p, keys, answers) && p.size == old(p.size) && NoRoom(keys, answers, r, Capacity(mtu))
                   && (p.size <= HEADER_SIZE ==> keys == [] && answers == [] && !FitsAlone(r, false, Capacity(mtu)))
    {
      hide Proper, Askable, WithRecord, WithKey, WithRecords, WithKeys, TableInside, Packet.Field;
      OneMoreAnswer(WithKeys(NOTHING, keys), answers, r);
      ok := AddRecord(p, r, false, Holding(keys, answers));
      if !ok && p.size <= HEADER_SIZE {
        EmptyHolding(keys, answers);
      }
    }

    lemma NoRoomBy(m: Message, r: Record, capacity: nat)
      requires AllAskable(m.keys) && AllProper(m.answers) && Proper(r) && NoRoom(m.keys, m.answers, r, capacity)
      ensures NoRoomFor(m, r, capacity)
    {
    }

    /** The record goes into the packet, or into a new one after the packet is sent; it is given up if it
        does not even fit there. */
    method AppendOrSend(p: Packet, n: nat, r: Record, ghost keys: seq<Key>, ghost answers: seq<Record>)
      returns (q: Packet, n': nat, tooLarge: bool, ghost ms: seq<Message>, ghost keys': seq<Key>,
        ghost answers': seq<Record>)
      requires Filling(p, keys, answers) && n == |answers| && Proper(r)
      modifies this`packets, p`size, p`nameTable, p.data
      ensures q == p || (fresh(q) && fresh(q.data))
      ensures Filling(q, keys', answers') && n' == |answers'|
      ensures packets == old(packets) + Packets(ms) && WellFormedRun(ms, false) && |ms| <= 1
      ensures AskedFirst(ms, keys) && if ms == [] then q == p && keys' == keys else keys' == []
      ensures Answers(ms) + answers' == answers + if tooLarge then [] else [r]
      ensures tooLarge ==> !FitsAlone(r, false, Capacity(mtu))
      // a packet is sent only when the record does not fit behind what it holds
      ensures ms != [] ==> ms[0].keys == keys && ms[0].answers == answers && NoRoomFor(ms[0], r, Capacity(mtu))
    {
      hide Filling, Proper, WellFormedMessage, FitsAlone, WellFormedRun, AskedFirst, Answers, Packets, NoRoom,
           NoRoomFor;
      NoMessages(keys);
      q, n', tooLarge, ms, keys', answers' := p, n, false, [], keys, answers;
      var ok := TryAnswer(q, r, keys, answers);
      while !ok && !tooLarge
        invariant q == p || (fresh(q) && fresh(q.data))
        invariant Filling(q, keys', if ok then answers' + [r] else answers') && n' == |answers'|
        invariant packets == old(packets) + Packets(ms) && WellFormedRun(ms, false) && |ms| <= 1
        invariant AskedFirst(ms, keys)
        invariant if ms == [] then q == p && keys' == keys && answers' == answers else keys' == [] && answers' == []
        invariant Answers(ms) + answers' == answers
        invariant !ok && q.size <= HEADER_SIZE ==> !FitsAlone(r, false, Capacity(mtu))
        invariant tooLarge ==> !ok && !FitsAlone(r, false, Capacity(mtu))
        invariant !ok && ms == [] ==> AllAskable(keys) && AllProper(answers) && NoRoom(keys, answers, r, Capacity(mtu))
        invariant ms != [] ==> ms[0].keys == keys && ms[0].answers == answers && NoRoomFor(ms[0], r, Capacity(mtu))
        invariant ms != [] ==> q.size <= HEADER_SIZE || ok
        decreases if ok || tooLarge then 0 else 2 - |ms|
      {
        var empty := q.IsEmpty();
        if empty {
          tooLarge := true;
        } else {
          ghost var m;
          q, m := SendAndGoOn(q, n', keys', answers');
          OneMessage(m, keys);
          NoRoomBy(m, r, Capacity(mtu));
          ms := [m];
          n', keys', answers' := 0, [], [];
          ok := TryAnswer(q, r, [], []);
        }
      }
      if !tooLarge {
        n' := n' + 1;
        answers' := answers' + [r];
      }
    }

    /** append_known_answers_and_send: every known answer that fits into a packet at all is sent, once and
        in order, in as many packets as it takes; all of them but the last have the TC bit, and end where the next
        known answer does not fit behind what they hold. */
    method AppendKnownAnswersAndSend(p: Packet, ghost keys: seq<Key>)
      returns (ghost ms: seq<Message>, ghost cuts: seq<nat>)
      requires Filling(p, keys, []) && AllProper(knownAnswers)
      modifies this`knownAnswers, this`packets, p`size, p`nameTable, p.data
      ensures knownAnswers == [] && packets == old(packets) + Packets(ms) && ms != [] && WellFormedRun(ms, true)
      ensures AskedFirst(ms, keys)
      ensures Keeps(old(knownAnswers), Answers(ms), Capacity(mtu))
      ensures |cuts| == |ms| - 1 && CutsAt(ms, old(knownAnswers), cuts, Capacity(mtu))
    {
      hide Filling, Proper, WellFormedMessage, WellFormedRun, AskedFirst, FitsAlone, Keeps, Answers, Packets, CutsAt,
           NoRoomFor;
      NoMessages(keys);
      ghost var all, i, keys', answers := knownAnswers, 0, keys, [];
      ms, cuts := [], [];
      NoCuts([], all, Capacity(mtu));
      var q, n := p, 0;
      KeepsNothing(Capacity(mtu));
      assert all[..0] == [] && Answers([]) + answers == [];
      while knownAnswers != []
        invariant i <= |all| && knownAnswers == all[i..]
        invariant q == p || (fresh(q) && fresh(q.data))
        invariant Filling(q, keys', answers) && n == |answers|
        invariant packets == old(packets) + Packets(ms) && WellFormedRun(ms, false)
        invariant keys' == if ms == [] then keys else []
        invariant AskedFirst(ms, keys)
        invariant AllProper(all[..i]) && Keeps(all[..i], Answers(ms) + answers, Capacity(mtu))
        invariant |cuts| == |ms| && CutsAt(ms, all, cuts, Capacity(mtu))
        decreases |knownAnswers|
      {
        var r := knownAnswers[0];
        ghost var before, held, more := ms, answers, [];
        var tooLarge;
        q, n, tooLarge, more, keys', answers := AppendOrSend(q, n, r, keys', answers);
        ConcatAssociative(old(packets), Packets(before), Packets(more));
        KeepsNext(all, i, before, held, more, answers, tooLarge, Capacity(mtu));
        RunNext(before, more, keys, if before == [] then keys else []);
        CutNext(before, more, held, all, cuts, i, Capacity(mtu));
        cuts := cuts + if more == [] then [] else [i];
        ms := before + more;
        knownAnswers := knownAnswers[1..];
        i := i + 1;
      }
      assert all[..i] == all;
      ghost var m := Send(q, n, false, keys', answers);
      AnswersAppend(ms, m);
      PacketsAppend(ms, m);
      ConcatAssociative(old(packets), Packets(ms), [m.packet]);
      RunDone(ms, m, keys);
      CutsStay(ms, [m], all, cuts, Capacity(mtu));
      ms := ms + [m];
    }

    // ---------------------------------------------------------------- jobs

    /** job_new */
    method JobNew(key: Key, done: bool) returns (j: Job)
      requires Listed() && Askable(key)
      modifies this`jobs, this`history, this`repr, this`nextId, this`made
      requires nextId == made % UINT_RANGE
      ensures fresh(j) && j.key == key && j.Named() && j.done == done
      ensures j.nPosted == 1 && j.serial == old(made) && j.Numbered(made)
      ensures j.id == old(nextId)
      ensures Listed() && repr == old(repr) + {j} && made == old(made) + 1 && nextId == made % UINT_RANGE
      ensures if done then history == [j] + old(history) && jobs == old(jobs)
              else jobs == [j] + old(jobs) && history == old(history)
    {
      hide Askable, Job.Named;
      j := new Job(key, nextId, done, made);
      NextResidue(made);
      nextId := (nextId + 1) % UINT_RANGE;
      made := made + 1;
      repr := repr + {j};
      if done {
        NoDuplicatesPrepend(j, history);
        history := [j] + history;
      } else {
        NoDuplicatesPrepend(j, jobs);
        jobs := [j] + jobs;
      }
    }

    /** job_free */
    method JobFree(j: Job)
      requires Listed() && j in repr
      modifies this`jobs, this`history, this`repr
      ensures Listed() && repr == old(repr) - {j} && |jobs| + |history| == |old(jobs)| + |old(history)| - 1
      ensures Held() == old(Held()) - {j}
      ensures if j.done then history == Without(old(history), j) && jobs == old(jobs)
              else jobs == Without(old(jobs), j) && history == old(history)
    {
      if j.done {
        NoDuplicatesWithout(history, j);
        history := Without(history, j);
      } else {
        NoDuplicatesWithout(jobs, j);
        jobs := Without(jobs, j);
      }
      repr := repr - {j};
    }

    /** job_mark_done */
    method JobMarkDone(j: Job, now: Timeval)
      requires Listed() && j in repr && !j.done
      modifies this`jobs, this`history, j`done, j`timeEvent, j`delivery
      ensures Listed() && Past(j) && j.delivery == now && |jobs| == |old(jobs)| - 1
      ensures jobs == Without(old(jobs), j) && history == [j] + old(history)
      ensures j.timeEvent.Some? && Micros(j.timeEvent.value) == Micros(now) + 100000
      ensures Held() == old(Held())[j := Sending(j.about, Micros(now))]
    {
      AfterMoves(now, HISTORY_MSEC);
      NoDuplicatesWithout(jobs, j);
      NoDuplicatesPrepend(j, history);
      jobs := Without(jobs, j);
      history := [j] + history;
      j.done := true;
      j.timeEvent := Some(After(now, HISTORY_MSEC));
      j.delivery := now;
    }

    /** The clock only goes forward. */
    ghost method Tick(now: Timeval)
      requires ValidJobs() && clock <= Micros(now)
      modifies this`clock
      ensures ValidJobs() && clock == Micros(now)
    {
      hide Listed, OneJobEach, Scheduled, Past, AllSpaced, Latest, Guarded, Held;
      clock := Micros(now);
      GuardedLater(sent, Held(), old(clock), clock, GAP);
    }

    /** A job whose time in the history is over. */
    method Forget(j: Job, now: Timeval)
      requires ValidJobs() && j in repr && j.done && clock <= Micros(now)
      requires Micros(now) >= Micros(j.delivery) + GAP
      modifies this`jobs, this`history, this`repr, this`clock
      ensures ValidJobs() && clock == Micros(now)
      ensures repr == old(repr) - {j} && history == Without(old(history), j) && jobs == old(jobs)
    {
      hide Listed, Scheduled, Past, Job.Named, AllSpaced, Latest, Guarded, Held;
      Tick(now);
      ghost var held := Held();
      HeldBy(j);
      JobFree(j);
      GuardedLess(sent, held, j, clock, GAP);
    }

    lemma HistoryJobs()
      requires ValidJobs()
      ensures forall j :: j in history ==> j in repr && j.done && j.Named()
      ensures forall j :: j in repr && j.done ==> j in history
    {
      hide OneJobEach, Scheduled, Past, Job.Named, Logged;
    }

    lemma ScheduledJobs()
      requires ValidJobs()
      ensures forall j :: j in jobs ==> j in repr && !j.done && j.Named() && Scheduled(j)
      ensures forall j :: j in repr && !j.done ==> j in jobs
    {
      hide OneJobEach, Scheduled, Past, Job.Named, Logged;
    }

    lemma OnlyJob(j: Job)
      requires ValidJobs() && j in repr
      ensures forall b :: b in repr && b.about == j.about ==> b == j
    {
      hide Listed, Scheduled, Past, Job.Named, Logged;
    }

    /** find_scheduled_job */
    method FindScheduledJob(key: Key) returns (r: Option<Job>)
      requires ValidJobs() && Askable(key)
      ensures r.Some? ==> r.value in repr && !r.value.done && r.value.about == ClassOf(key)
      ensures r.None? ==> forall j :: j in repr && !j.done ==> j.about != ClassOf(key)
    {
      hide ValidJobs, Scheduled, Job.Named, WellFormedName, NoNul, ClassOf;
      ScheduledJobs();
      for i := 0 to |jobs|
        invariant forall n :: 0 <= n < i ==> jobs[n].about != ClassOf(key)
      {
        var same := SameKey(jobs[i], key);
        if same {
          return Some(jobs[i]);
        }
      }
      r := None;
    }

    /** A job in the history that still counts. */
    ghost predicate Recent(j: Job, k: KeyClass, now: Timeval)
      reads j
    {
      j.done && j.about == k && Diff(now, j.delivery) <= GAP
    }

    /** find_history_job; a job that is too old is dropped on the way. */
    method FindHistoryJob(key: Key, now: Timeval) returns (r: Option<Job>)
      requires ValidJobs() && Askable(key) && clock <= Micros(now)
      modifies this`jobs, this`history, this`repr, this`clock
      ensures ValidJobs() && clock == Micros(now) && jobs == old(jobs) && repr <= old(repr)
      ensures forall j :: j in old(repr) && j !in repr ==> j.done && j.about == ClassOf(key)
      ensures r.Some? ==>
                r.value in repr && Recent(r.value, ClassOf(key), now) && repr == old(repr) && history == old(history)
      ensures r.None? ==> forall j :: j in repr && j.done ==> j.about != ClassOf(key)
      ensures r.None? ==> forall j :: j in old(repr) ==> !Recent(j, ClassOf(key), now)
    {
      hide ValidJobs, Job.Named, WellFormedName, NoNul, ClassOf;
      Tick(now);
      HistoryJobs();
      for i := 0 to |history|
        invariant unchanged(this`jobs, this`history, this`repr) && ValidJobs() && clock == Micros(now)
        invariant forall n :: 0 <= n < i ==> history[n].about != ClassOf(key)
      {
        var j := history[i];
        assert j.Named();
        OnlyJob(j);
        var same := SameKey(j, key);
        if same {
          if Diff(now, j.delivery) > GAP {
            DiffIsDistance(now, j.delivery);
            Forget(j, now);
            return None;
          }
          return Some(j);
        }
      }
      r := None;
    }

    method SameKey(j: Job, key: Key) returns (same: bool)
      requires j.Named() && Askable(key)
      ensures same <==> j.about == ClassOf(key)
    {
      same := KeyEqual(j.key, key);
    }

    /** Someone asked already, or is asked, within the last moment: the key is not asked again. */
    ghost predicate AskedRecently(k: KeyClass, now: Timeval)
      reads this`repr, repr
    {
      exists j :: j in repr && Recent(j, k, now)
    }

    /** The moment is a tenth of a second. */
    lemma RecentlyMeans(k: KeyClass, now: Timeval)
      ensures AskedRecently(k, now) <==>
                exists j :: j in repr && j.done && j.about == k && Micros(now) - Micros(j.delivery) <= 100000
    {
      forall j: Job
        ensures Recent(j, k, now) <==> j.done && j.about == k && Micros(now) - Micros(j.delivery) <= 100000
      {
        DiffIsDistance(now, j.delivery);
      }
    }

    /** avahi_query_scheduler_post */
    method Post(key: Key, immediately: bool, now: Timeval) returns (posted: bool, id: nat)
      requires Valid() && Askable(key) && clock <= Micros(now)
      modifies this`jobs, this`history, this`repr, this`clock, this`nextId, this`made, repr
      ensures Valid() && clock == Micros(now)
      ensures posted == !old(AskedRecently(ClassOf(key), now))
      ensures !posted ==> jobs == old(jobs) && history == old(history) && forall j :: j in repr ==> unchanged(j)
      // a scheduled job for the key is shared, and only ever brought forward
      ensures posted ==> var due := if immediately then now else Add(now, 100000);
                forall j :: j in old(repr) && !old(j.done) ==>
                  if j.about == ClassOf(key) then
                    j in repr && id == j.id && jobs == old(jobs) && j.nPosted == old(j.nPosted) + 1
                    && j.delivery == Earlier(due, old(j.delivery))
                  else unchanged(j)
      // otherwise a job is made
      ensures posted && (forall j :: j in old(repr) && !old(j.done) ==> j.about != ClassOf(key)) ==>
                && |jobs| == |old(jobs)| + 1 && jobs[1..] == old(jobs) && fresh(jobs[0]) && jobs[0].key == key
                && id == jobs[0].id && jobs[0].delivery == if immediately then now else Add(now, 100000)
    {
      hide Job.Named, WellFormedName, NoNul, ClassOf, ValidJobs, Past, WithKey;
      id := 0;
      var h := FindHistoryJob(key, now);
      if h.Some? {
        return false, id;
      }
      var due := After(now, if immediately then 0 else DEFER_MSEC);
      var found := FindScheduledJob(key);
      if found.Some? {
        OnlyJob(found.value);
        Share(found.value, due);
        id := found.value.id;
      } else {
        var j := Schedule(key, due);
        id := j.id;
      }
      posted := true;
    }

    /** One more wants the query of a job, perhaps earlier. */
    method Share(j: Job, due: Timeval)
      requires Valid() && j in repr && !j.done
      modifies j`delivery, j`timeEvent, j`nPosted
      ensures Valid() && j.nPosted == old(j.nPosted) + 1 && j.delivery == Earlier(due, old(j.delivery))
    {
      hide OneJobEach, Job.Named, CanSend, AllSpaced, Latest, Guarded;
      assert Scheduled(j);
      if Compare(due, j.delivery) < 0 {
        j.delivery := due;
        j.timeEvent := Some(j.delivery);
      }
      j.nPosted := j.nPosted + 1;
      assert Held() == old(Held());
    }

    /** A new job. */
    method Schedule(key: Key, due: Timeval) returns (j: Job)
      requires Valid() && Askable(key) && forall h :: h in repr ==> h.about != ClassOf(key)
      modifies this`jobs, this`history, this`repr, this`nextId, this`made
      ensures Valid() && fresh(j) && jobs == [j] + old(jobs) && |jobs| == |old(jobs)| + 1 && jobs[1..] == old(jobs)
      ensures j.key == key && j.delivery == due && history == old(history) && repr == old(repr) + {j}
    {
      hide Job.Named, Past, ClassOf, Listed, AllSpaced, Latest, Guarded, Held;
      j := NewScheduled(key, due);
    }

    method NewScheduled(key: Key, due: Timeval) returns (j: Job)
      requires Listed() && Askable(key) && nextId == made % UINT_RANGE
      modifies this`jobs, this`history, this`repr, this`nextId, this`made
      ensures fresh(j) && Scheduled(j) && j.Named() && j.about == ClassOf(key) && j.key == key && j.delivery == due
      ensures j.serial == old(made) && j.Numbered(made)
      ensures Listed() && repr == old(repr) + {j} && made == old(made) + 1 && nextId == made % UINT_RANGE
      ensures jobs == [j] + old(jobs) && history == old(history) && Held() == old(Held())
    {
      hide Job.Named, ClassOf;
      j := JobNew(key, false);
      NamedAbout(j);
      j.delivery := due;
      j.timeEvent := Some(j.delivery);
    }

    lemma NamedAbout(j: Job)
      requires j.Named()
      ensures j.about == ClassOf(j.key)
    {
    }

    /** While a job is scheduled the history has none for its key. */
    lemma Unheld(j: Job)
      requires ValidJobs() && j in repr && !j.done
      ensures j !in Held() && Guarded(sent, Held(), clock, GAP)
      ensures j.about in sent ==> sent[j.about] + GAP <= clock
    {
      hide Listed, Scheduled, Past, Job.Named, AllSpaced, Latest, Guarded;
      NotGuarded(sent, Held(), j.about, clock, GAP);
    }

    /** A scheduled job is done. While it was scheduled there was no other job for its key, so if its key was
        sent before, that is at least a tenth of a second ago. */
    method MarkDone(j: Job, now: Timeval)
      requires ValidJobs() && j in repr && !j.done && clock <= Micros(now)
      modifies this`jobs, this`history, this`clock, j`done, j`timeEvent, j`delivery
      ensures ValidJobs() && clock == Micros(now) && j.done && j.delivery == now && |jobs| == |old(jobs)| - 1
      ensures jobs == Without(old(jobs), j) && history == [j] + old(history)
      ensures j.timeEvent.Some? && Micros(j.timeEvent.value) == Micros(now) + 100000
      ensures j.about in sent ==> sent[j.about] + GAP <= Micros(now)
    {
      hide Listed, Job.Named, CanSend, AllSpaced, Latest, Guarded, Held;
      Tick(now);
      Unheld(j);
      ghost var held := Held();
      JobMarkDone(j, now);
      GuardedMore(sent, held, j, j.about, clock, GAP);
    }

    /** The question was seen, or sent, at this moment. */
    method Renew(j: Job, now: Timeval)
      requires ValidJobs() && j in repr && j.done && clock <= Micros(now)
      modifies this`clock, j`timeEvent, j`delivery
      ensures ValidJobs() && clock == Micros(now) && j.delivery == now
    {
      hide Listed, Job.Named, CanSend, OneJobEach, AllSpaced, Latest, Guarded;
      Tick(now);
      ghost var held := Held();
      HeldBy(j);
      GuardedMore(sent, held, j, j.about, clock, GAP);
      j.delivery := now;
      j.timeEvent := Some(After(now, HISTORY_MSEC));
      assert Held() == held[j := Sending(j.about, clock)];
    }

    method NewPast(key: Key, now: Timeval) returns (j: Job)
      requires Listed() && Askable(key) && nextId == made % UINT_RANGE
      modifies this`jobs, this`history, this`repr, this`nextId, this`made
      ensures fresh(j) && Past(j) && j.Named() && j.about == ClassOf(key) && j.delivery == now
      ensures j.serial == old(made) && j.Numbered(made)
      ensures Listed() && repr == old(repr) + {j} && made == old(made) + 1 && nextId == made % UINT_RANGE
      ensures jobs == old(jobs) && history == [j] + old(history)
      ensures j !in old(Held()) && Held() == old(Held())[j := Sending(j.about, Micros(now))]
    {
      hide Job.Named, ClassOf;
      j := JobNew(key, true);
      NamedAbout(j);
      j.delivery := now;
      j.timeEvent := Some(After(now, HISTORY_MSEC));
    }

    /** A job for a question that others asked. */
    method Remember(key: Key, now: Timeval) returns (j: Job)
      requires Valid() && Askable(key) && clock <= Micros(now) && forall h :: h in repr ==> h.about != ClassOf(key)
      modifies this`jobs, this`history, this`repr, this`nextId, this`made, this`clock
      ensures Valid() && clock == Micros(now) && fresh(j) && j.done && j.about == ClassOf(key) && j.delivery == now
      ensures jobs == old(jobs) && history == [j] + old(history) && repr == old(repr) + {j}
    {
      hide Job.Named, ClassOf, Listed, CanSend, AllSpaced, Latest, Guarded, Held;
      Tick(now);
      ghost var held := Held();
      j := NewPast(key, now);
      GuardedMore(sent, held, j, j.about, clock, GAP);
    }

    /** avahi_query_scheduler_incoming: a query of another host was seen. The key has no scheduled job any
        more, and its question counts as asked now. */
    method Incoming(key: Key, now: Timeval)
      requires Valid() && Askable(key) && clock <= Micros(now)
      modifies this`jobs, this`history, this`repr, this`clock, this`nextId, this`made, repr
      ensures Valid() && clock == Micros(now)
      ensures forall j :: j in repr && !j.done ==> j.about != ClassOf(key)
      ensures exists j :: j in repr && j.done && j.about == ClassOf(key) && j.delivery == now
      // nothing happens to other keys
      ensures forall j :: j in old(repr) && j.about != ClassOf(key) ==> j in repr && unchanged(j)
      ensures forall j :: j in repr && j.about != ClassOf(key) ==> j in old(repr)
      ensures jobs == old(jobs) ||
              exists j :: j in old(jobs) && j.about == ClassOf(key) && jobs == Without(old(jobs), j)
    {
      hide Job.Named, WellFormedName, NoNul, ClassOf, ValidJobs, Past, WithKey;
      var j := FindScheduledJob(key);
      if j.Some? {
        ScheduledJobs();
        OnlyJob(j.value);
        MarkDone(j.value, now);
        return;
      }
      j := FindHistoryJob(key, now);
      if j.None? {
        var n := Remember(key, now);
      } else {
        OnlyJob(j.value);
        Renew(j.value, now);
      }
    }

    /** One less wants the query of a job. */
    method Unpost(j: Job) returns (gone: bool)
      requires Valid() && j in repr && !j.done
      modifies this`jobs, this`history, this`repr, j`nPosted
      ensures Valid() && history == old(history) && j.nPosted == old(j.nPosted) - 1 && gone == (old(j.nPosted) == 1)
      ensures if gone then jobs == Without(old(jobs), j) && repr == old(repr) - {j}
              else jobs == old(jobs) && repr == old(repr)
    {
      hide Job.Named, CanSend, Listed, AllSpaced, Latest, Guarded;
      assert Scheduled(j);
      j.nPosted := j.nPosted - 1;
      gone := j.nPosted <= 0;
      if gone {
        JobFree(j);
      }
      assert Held() == old(Held());
    }

    /** avahi_query_scheduler_withdraw_by_id: every job of that id has one poster less, up to the first one that had
        no other; that one is given up. Other jobs and the history stay as they are. */
    method WithdrawById(id: nat) returns (r: bool, ghost at: nat)
      requires Valid()
      modifies this`jobs, this`history, this`repr, repr`nPosted
      ensures Valid() && history == old(history) && at <= |old(jobs)|
      ensures forall n :: 0 <= n < at ==> OneLess(old(jobs)[n], id, old(jobs[n].nPosted))
      ensures forall n :: at < n < |old(jobs)| ==> old(jobs)[n].nPosted == old(jobs[n].nPosted)
      ensures forall j :: j in history ==> j.nPosted == old(j.nPosted)
      ensures r <==> at < |old(jobs)|
      ensures if r then
                var j := old(jobs)[at];
                j.id == id && old(jobs[at].nPosted) == 1 && jobs == Without(old(jobs), j) && repr == old(repr) - {j}
              else jobs == old(jobs) && repr == old(repr)
    {
      hide ValidJobs, Scheduled, Job.Named;
      ScheduledJobs();
      HistoryJobs();
      OnceEach();
      at := |jobs|;
      for i := 0 to |jobs|
        invariant Valid() && unchanged(this`jobs, this`history, this`repr) && NoDuplicates(jobs)
        invariant forall n :: 0 <= n < i ==> OneLess(jobs[n], id, old(jobs[n].nPosted))
        invariant forall n :: i <= n < |jobs| ==> jobs[n].nPosted == old(jobs[n].nPosted)
        invariant forall j :: j in history ==> j.nPosted == old(j.nPosted)
      {
        var j := jobs[i];
        if j.id == id {
          OtherPlaces(jobs, i);
          assert j !in history;
          IsPosted(j);
          var gone := Unpost(j);
          if gone {
            at := i;
            return true, at;
          }
        }
      }
      r := false;
    }

    /** A job that was passed by: one of the id has others who want it. */
    ghost predicate OneLess(j: Job, id: nat, was: int)
      reads j`nPosted
    {
      if j.id == id then was >= 2 && j.nPosted == was - 1 else j.nPosted == was
    }

    lemma IsPosted(j: Job)
      requires ValidJobs() && j in repr && !j.done
      ensures j.nPosted >= 1
    {
      hide Listed, OneJobEach, Past, Job.Named, Logged;
      assert Scheduled(j);
    }

    lemma OnceEach()
      requires ValidJobs()
      ensures NoDuplicates(jobs)
    {
      hide OneJobEach, Scheduled, Past, Job.Named, Logged;
    }

    /** avahi_query_scheduler_clear: nothing is remembered of what was sent. */
    method Clear()
      requires Valid()
      modifies this`jobs, this`history, this`repr, this`log, this`sent
      ensures Valid() && jobs == [] && history == [] && log == []
    {
      hide ValidJobs;
      ForgetSent();
      while jobs != []
        invariant Valid() && log == [] && sent == map[]
        decreases |jobs| + |history|
      {
        ScheduledJobs();
        Drop(jobs[0]);
      }
      while history != []
        invariant Valid() && log == [] && sent == map[] && jobs == []
        decreases |history|
      {
        HistoryJobs();
        Drop(history[0]);
      }
    }

    ghost method ForgetSent()
      requires ValidJobs()
      modifies this`log, this`sent
      ensures ValidJobs() && log == [] && sent == map[]
    {
      hide Listed, OneJobEach, Scheduled, Past, Job.Named, AllSpaced, Latest, Guarded, Held;
      log, sent := [], map[];
      NothingSent(Held(), clock, GAP);
    }

    method Drop(j: Job)
      requires ValidJobs() && j in repr && log == [] && sent == map[]
      modifies this`jobs, this`history, this`repr
      ensures ValidJobs() && |jobs| + |history| < |old(jobs)| + |old(history)|
      ensures if j.done then jobs == old(jobs) else history == old(history)
    {
      hide Listed, Scheduled, Past, Job.Named, AllSpaced, Latest, Guarded, Held;
      JobFree(j);
      NothingSent(Held(), clock, GAP);
    }

    // ---------------------------------------------------------------- sending

    /** A cached record that a query for the key tells others about. */
    ghost predicate Known(e: C.Entry, k: KeyClass, now: Timeval)
      reads e
    {
      Matches(k, e.identity.key) && !C.Cache.PastHalf(e, now)
    }

    /** It is of the key or matches it as a pattern, and less than half of its TTL has passed. */
    lemma KnownMeans(e: C.Entry, k: KeyClass, now: Timeval)
      requires 0 <= Micros(now) - Micros(e.timestamp) < 0x1_0000_0000 * 1000000
      ensures Known(e, k, now) <==>
                && k.labels == e.identity.key.labels
                && (k.kind == e.identity.key.kind || k.kind == 255)
                && (k.clazz == e.identity.key.clazz || k.clazz == 255)
                && Micros(now) < Micros(e.timestamp) + e.record.ttl / 2 * 1000000
    {
      DiffIsDistance(now, e.timestamp);
    }

    /** The known answers of a query: the cached records of its key in the first half of their TTL. */
    method AddKnownAnswers(key: Key, now: Timeval) returns (ghost added: seq<C.Entry>)
      requires cache.Valid() && Askable(key) && AllProper(knownAnswers)
      modifies this`knownAnswers
      ensures AllProper(knownAnswers) && |knownAnswers| == |added| + |old(knownAnswers)|
      ensures knownAnswers[|added|..] == old(knownAnswers)
      ensures forall i :: 0 <= i < |added| ==> knownAnswers[i] == added[i].record
      ensures forall i :: 0 <= i < |added| ==> added[i] in cache.repr && Known(added[i], ClassOf(key), now)
      ensures forall e :: e in cache.repr && Known(e, ClassOf(key), now) ==> e in added
      ensures NoDuplicates(added)
    {
      hide C.Cache.Valid, C.Cache.PastHalf, C.Matching, Matches, ClassOf, Proper, NoDuplicates;
      var visited := cache.Walk(key);
      FoundAll(ClassOf(key), visited);
      NoneTwice();
      added := [];
      for i := 0 to |visited|
        invariant AllProper(knownAnswers) && |knownAnswers| == |added| + |old(knownAnswers)|
        invariant knownAnswers[|added|..] == old(knownAnswers)
        invariant forall n :: 0 <= n < |added| ==> knownAnswers[n] == added[n].record
        invariant forall n :: 0 <= n < |added| ==> added[n] in cache.repr && Known(added[n], ClassOf(key), now)
        invariant forall n :: 0 <= n < i && Known(visited[n], ClassOf(key), now) ==> visited[n] in added
        invariant NoDuplicates(added) && forall n :: i <= n < |visited| ==> visited[n] !in added
      {
        var e := visited[i];
        var half := cache.EntryHalfTtl(e, now);
        OtherPlaces(visited, i);
        if !half {
          CachedProper(e);
          NoDuplicatesPrepend(e, added);
          added := [e] + added;
          knownAnswers := [e.record] + knownAnswers;
        }
      }
    }

    lemma CachedProper(e: C.Entry)
      requires cache.Valid() && e in cache.repr
      ensures Proper(e.record)
    {
      hide Proper, RecordClassOf, C.Cache.StoredKeys, C.Cache.Structured;
      assert e.Good();
    }

    lemma NoneTwice()
      ensures NoDuplicates<C.Entry>([])
    {
    }

    lemma ApartOnce(s: seq<C.Entry>)
      requires C.AllApart(s)
      ensures NoDuplicates(s)
    {
      forall i, j
        ensures Apart(s, i, j)
      {
        assert C.OtherRecords(s, i, j) && C.OtherRecords(s, j, i);
      }
    }

    lemma FoundAll(k: KeyClass, visited: seq<C.Entry>)
      requires cache.Valid() && visited == C.Matching(cache.entries, k)
      ensures forall i :: 0 <= i < |visited| ==> visited[i] in cache.repr && Matches(k, visited[i].identity.key)
      ensures forall e :: e in cache.repr && Matches(k, e.identity.key) ==> e in visited
      ensures NoDuplicates(visited)
    {
      hide C.Indexed, C.Replay, C.Identities, C.AllApart, C.Cache.StoredKeys, Matches;
      C.MatchingApart(cache.entries, k);
      ApartOnce(visited);
      forall e | e in cache.repr && Matches(k, e.identity.key)
        ensures e in visited
      {
        var i :| 0 <= i < |cache.entries| && cache.entries[i] == e;
      }
    }

    /** A question is sent now. */
    method MarkSent(j: Job, now: Timeval)
      requires ValidJobs() && j in repr && !j.done && clock <= Micros(now)
      modifies this`jobs, this`history, this`clock, this`log, this`sent, j`done, j`timeEvent, j`delivery
      ensures ValidJobs() && clock == Micros(now) && j.done
      ensures jobs == Without(old(jobs), j) && history == [j] + old(history)
      ensures |jobs| == |old(jobs)| - 1
      ensures log == old(log) + [Sending(j.about, Micros(now))]
    {
      hide Listed, Job.Named, OneJobEach, Past, Scheduled, AllSpaced, Latest, Guarded, Held;
      MarkDone(j, now);
      label Done:
      Sent(log, sent, j.about, Micros(now), GAP);
      log := log + [Sending(j.about, Micros(now))];
      sent := sent[j.about := Micros(now)];
      HeldBy(j);
      GuardedSent(old@Done(sent), Held(), j, j.about, clock, GAP);
    }

    /** packet_add_query_job */
    method PacketAddQueryJob(p: Packet, j: Job, now: Timeval, ghost keys: seq<Key>) returns (ok: bool)
      requires ValidJobs() && cache.Valid() && AllProper(knownAnswers) && j in repr && !j.done && clock <= Micros(now)
      requires AllAskable(keys) && Carries(p, WithKeys(NOTHING, keys))
      modifies this`jobs, this`history, this`clock, this`log, this`sent, this`knownAnswers
      modifies j`done, j`timeEvent, j`delivery
      modifies p`size, p`nameTable, p.data
      ensures ValidJobs() && AllProper(knownAnswers)
      ensures forall r :: r in old(knownAnswers) ==> r in knownAnswers
      ensures ok ==> forall e :: e in cache.repr && Known(e, j.about, now) ==> e.record in knownAnswers
      ensures Askable(j.key) && j.about == ClassOf(j.key)
      ensures ok == (HEADER_SIZE + |WithKey(WithKeys(NOTHING, keys), j.key, false).body| <= p.data.Length)
      ensures forall i :: 0 <= i < 6 ==> p.Field(i) == old(p.Field(i))
      ensures if ok then
                && AllAskable(keys + [j.key]) && Carries(p, WithKeys(NOTHING, keys + [j.key]))
                && clock == Micros(now) && j.done && |jobs| == |old(jobs)| - 1 && jobs == Without(old(jobs), j)
                && log == old(log) + [Sending(j.about, Micros(now))]
              else
                && Carries(p, WithKeys(NOTHING, keys)) && !j.done && jobs == old(jobs) && log == old(log)
                && knownAnswers == old(knownAnswers) && clock == old(clock)
    {
      hide ValidJobs, WithKey, WithKeys, Job.Named, WellFormedName, NoNul, Proper, Packet.Field, TableInside, ClassOf,
           Known;
      JobAskable(j);
      OneMoreKey(keys, j.key);
      ok := AddKey(p, j.key, false, WithKeys(NOTHING, keys));
      if ok {
        ghost var added := AddKnownAnswers(j.key, now);
        Suffix(old(knownAnswers), |added|);
        MarkSent(j, now);
      }
    }

    lemma Suffix(was: seq<Record>, n: nat)
      requires n <= |knownAnswers| && knownAnswers[n..] == was
      ensures forall r :: r in was ==> r in knownAnswers
    {
    }

    lemma JobAskable(j: Job)
      requires ValidJobs() && j in repr
      ensures Askable(j.key) && j.about == ClassOf(j.key)
    {
      hide Listed, OneJobEach, Scheduled, Past, Logged;
    }

    /** One more question. */
    method Ask(p: Packet, j: Job, now: Timeval, ghost asked: seq<Key>, ghost was: seq<Sending<KeyClass>>)
      returns (ok: bool)
      requires ValidJobs() && cache.Valid() && AllProper(knownAnswers) && j in repr && !j.done && clock <= Micros(now)
      requires AllAskable(asked) && Carries(p, WithKeys(NOTHING, asked))
      requires log == was + Together(Classes(asked), Micros(now))
      requires forall i :: 0 <= i < |asked| ==> AccompaniedBy(knownAnswers, ClassOf(asked[i]), now)
      modifies this`jobs, this`history, this`clock, this`log, this`sent, this`knownAnswers
      modifies j`done, j`timeEvent, j`delivery
      modifies p`size, p`nameTable, p.data
      ensures ValidJobs() && AllProper(knownAnswers) && clock <= Micros(now)
      ensures forall i :: 0 <= i < 6 ==> p.Field(i) == old(p.Field(i))
      ensures AllAskable(asked) && forall i :: 0 <= i < |asked| ==> AccompaniedBy(knownAnswers, ClassOf(asked[i]), now)
      ensures Askable(j.key)
      ensures ok == (HEADER_SIZE + |WithKey(WithKeys(NOTHING, asked), j.key, false).body| <= p.data.Length)
      ensures if ok then
                && AllAskable(asked + [j.key]) && Carries(p, WithKeys(NOTHING, asked + [j.key]))
                && |jobs| == |old(jobs)| - 1 && jobs == Without(old(jobs), j)
                && AccompaniedBy(knownAnswers, ClassOf(j.key), now)
                && log == was + Together(Classes(asked + [j.key]), Micros(now))
              else
                && Carries(p, WithKeys(NOTHING, asked)) && jobs == old(jobs) && log == old(log)
                && knownAnswers == old(knownAnswers)
    {
      hide ValidJobs, WithKey, WithKeys, Job.Named, WellFormedName, NoNul, Proper, Packet.Field, TableInside, ClassOf,
           Known, C.Cache.Valid, Packet.Valid, Classes;
      ok := PacketAddQueryJob(p, j, now, asked);
      if ok {
        ClassesMore(asked, j.key);
        TogetherMore(Classes(asked), ClassOf(j.key), Micros(now));
        ConcatAssociative(was, Together(Classes(asked), Micros(now)), [Sending(ClassOf(j.key), Micros(now))]);
      }
    }

    /** elapse_callback. A job in the history is dropped. Otherwise the query is sent, together with as many
        other scheduled ones as fit, and with what is known about all of them. */
    method Elapse(j: Job, now: Timeval)
      returns (aborted: bool, ghost ms: seq<Message>, ghost asked: seq<Key>, ghost known: seq<Record>)
      requires Valid() && cache.Valid() && j in repr && clock <= Micros(now)
      requires j.timeEvent.Some? && Micros(j.timeEvent.value) <= Micros(now)
      modifies this`jobs, this`history, this`repr, this`clock, this`log, this`sent, this`knownAnswers, this`packets
      modifies repr`done, repr`timeEvent, repr`delivery
      ensures Valid() && AllAskable(asked)
      ensures old(j.done) ==> history == Without(old(history), j) && jobs == old(jobs)
      // the assertion that a question fits into a packet fails for exactly those that do not
      ensures aborted <==> !old(j.done) && !CanSend(j.key)
      ensures aborted || old(j.done) ==> packets == old(packets) && log == old(log)
      ensures aborted || old(j.done) || Transmitted(ms, asked, known, now)
      ensures !aborted && !old(j.done) ==> packets == old(packets) + Packets(ms)
      // the question whose time has come is asked, and as many of the others as there is room for, in their order
      ensures !aborted && !old(j.done) ==>
                asked != [] && asked[0] == j.key && InOrder(Without(old(jobs), j), jobs, asked) && Full(asked)
      // the questions are different, and none was asked for a tenth of a second
      ensures !aborted && !old(j.done) ==> log == old(log) + Together(Classes(asked), Micros(now))
      ensures forall i, k :: 0 <= i < k < |asked| ==> ClassOf(asked[i]) != ClassOf(asked[k])
      ensures forall i, s :: 0 <= i < |asked| && s in old(log) && s.about == ClassOf(asked[i]) ==>
                s.at + 100000 <= Micros(now)
    {
      hide Transmitted, Full, Without, InOrder, Packets, Job.Named, WellFormedName, NoNul, ClassOf, C.Cache.Valid,
           Logged, Classes, Together, CanSend;
      aborted, ms, asked, known := false, [], [], [];
      if j.done {
        DueIsOver(j, now);
        Forget(j, now);
      } else {
        aborted, ms, asked, known := Transmit(j, now);
        if !aborted {
          AskedApart(old(log), asked, now);
        }
      }
    }

    /** What was sent: well-formed packets with all questions in the first one, followed by the known answers of
        all of them, apart from those that do not fit into any packet. A packet is followed by another one only
        where the next known answer does not fit behind what it holds. */
    ghost predicate Transmitted(ms: seq<Message>, asked: seq<Key>, known: seq<Record>, now: Timeval)
      reads cache, cache.repr
    {
      && ms != [] && WellFormedRun(ms, true) && AskedFirst(ms, asked) && AllAskable(asked)
      && AllProper(known) && Keeps(known, Answers(ms), Capacity(mtu))
      && (exists cuts :: |cuts| == |ms| - 1 && CutsAt(ms, known, cuts, Capacity(mtu)))
      && forall i :: 0 <= i < |asked| ==> AccompaniedBy(known, ClassOf(asked[i]), now)
    }

    /** The cached records of a question are among the known answers. */
    ghost predicate AccompaniedBy(known: seq<Record>, k: KeyClass, now: Timeval)
      reads cache, cache.repr
    {
      forall e :: e in cache.repr && Known(e, k, now) ==> e.record in known
    }

    /** What is in the packets of a query. The flags are zero but for the bit that tells that another packet follows;
        the first packet has the questions, and each has its own part of the known answers. */
    lemma TransmittedPackets(ms: seq<Message>, asked: seq<Key>, known: seq<Record>, now: Timeval, i: nat)
      requires Transmitted(ms, asked, known, now) && i < |ms|
      ensures var m, p := ms[i], ms[i].packet;
              && |p| >= 12 && Pair(p, 2) == (if i < |ms| - 1 then 0x200 else 0)
              && Pair(p, 4) == (if i == 0 then |asked| % 65536 else 0) && Pair(p, 6) == |m.answers| % 65536
              && AllProper(m.answers) && AllAskable(if i == 0 then asked else [])
              && p[12..] == WithRecords(WithKeys(NOTHING, if i == 0 then asked else []), Unflagged(m.answers)).body
    {
      hide Keeps, AccompaniedBy, CutsAt, Proper, Askable, WithRecords, WithKeys, U16At, Pair;
      HeaderLayout(ms[i].packet);
    }

    lemma AskedApart(was: seq<Sending<KeyClass>>, asked: seq<Key>, now: Timeval)
      requires ValidJobs() && AllAskable(asked) && log == was + Together(Classes(asked), Micros(now))
      ensures forall i, k :: 0 <= i < k < |asked| ==> ClassOf(asked[i]) != ClassOf(asked[k])
      ensures forall i, s :: 0 <= i < |asked| && s in was && s.about == ClassOf(asked[i]) ==>
                s.at + GAP <= Micros(now)
    {
      hide Listed, OneJobEach, Past, Scheduled, Job.Named, AllSpaced, Latest, Together, KeyTyped, ClassOf;
      var ks := Classes(asked);
      assert forall i :: 0 <= i < |asked| ==> ks[i] == ClassOf(asked[i]);
      TogetherSpaced(was, ks, Micros(now), GAP);
    }

    method Transmit(j: Job, now: Timeval)
      returns (aborted: bool, ghost ms: seq<Message>, ghost asked: seq<Key>, ghost known: seq<Record>)
      requires Valid() && cache.Valid() && j in repr && !j.done && clock <= Micros(now)
      modifies this`jobs, this`history, this`clock, this`log, this`sent, this`knownAnswers, this`packets
      modifies repr`done, repr`timeEvent, repr`delivery
      ensures Valid() && AllAskable(asked) && aborted == !CanSend(j.key)
      ensures if aborted then packets == old(packets) && log == old(log) && asked == []
              else
                && asked != [] && asked[0] == j.key && InOrder(Without(old(jobs), j), jobs, asked) && Full(asked)
                && log == old(log) + Together(Classes(asked), Micros(now))
                && Transmitted(ms, asked, known, now) && packets == old(packets) + Packets(ms)
    {
      hide WellFormedRun, AskedFirst, Packets, Answers, Keeps, Known, WithKey, WithKeys, Job.Named, WellFormedName,
           NoNul, ClassOf, Proper, C.Cache.Valid, TableInside, Packet.Field, ValidJobs, Classes, Together, CanSend,
           Carries, WithRecords, Full, InOrder, CutsAt;
      ms, asked, known := [], [], [];
      var p := EmptyQuery(mtu);
      var n;
      n, asked := AskAll(p, j, now);
      aborted := n == 0;
      if !aborted {
        NothingMore(WithKeys(NOTHING, asked));
        SetCount(p, FIELD_QDCOUNT, n % 0x10000, WithKeys(NOTHING, asked));
        known := knownAnswers;
        ghost var cuts;
        ms, cuts := AppendKnownAnswersAndSend(p, asked);
      }
    }

    /** All but the first question are those of the jobs in front of a list, in its order; the others are left. */
    static ghost predicate InOrder(was: seq<Job>, left: seq<Job>, asked: seq<Key>) {
      && 1 <= |asked| <= |was| + 1 && left == was[|asked| - 1..]
      && forall i :: 1 <= i < |asked| ==> asked[i] == was[i - 1].key
    }

    lemma InOrderMore(was: seq<Job>, left: seq<Job>, asked: seq<Key>)
      requires InOrder(was, left, asked) && left != [] && NoDuplicates(left)
      ensures InOrder(was, Without(left, left[0]), asked + [left[0].key])
    {
      FirstWithout(left);
      assert was[|asked| - 1..][1..] == was[|asked|..];
    }

    /** The packet is full: the next scheduled question does not fit any more. */
    ghost predicate Full(asked: seq<Key>)
      requires AllAskable(asked)
      reads this`jobs
    {
      jobs != [] ==>
        && Askable(jobs[0].key)
        && HEADER_SIZE + |WithKey(WithKeys(NOTHING, asked), jobs[0].key, false).body| > Capacity(mtu)
    }

    lemma NotFitting(asked: seq<Key>, k: Key)
      requires jobs != [] && k == jobs[0].key && AllAskable(asked) && Askable(k)
      requires HEADER_SIZE + |WithKey(WithKeys(NOTHING, asked), k, false).body| > Capacity(mtu)
      ensures Full(asked)
    {
    }

    /** The questions of a packet; none, if the first one does not fit. */
    method AskAll(p: Packet, j: Job, now: Timeval) returns (n: nat, ghost asked: seq<Key>)
      requires Valid() && cache.Valid() && j in repr && !j.done && clock <= Micros(now)
      requires Carries(p, NOTHING) && p.data.Length == Capacity(mtu) && p.Field(FIELD_FLAGS) == 0
      modifies this`jobs, this`history, this`clock, this`log, this`sent, this`knownAnswers
      modifies repr`done, repr`timeEvent, repr`delivery, p`size, p`nameTable, p.data
      ensures ValidJobs() && AllProper(knownAnswers) && n == |asked| && AllAskable(asked)
      ensures n == 0 <==> !CanSend(j.key)
      ensures n == 0 ==> knownAnswers == [] && log == old(log)
      ensures n > 0 ==> asked[0] == j.key && InOrder(Without(old(jobs), j), jobs, asked) && Full(asked)
      ensures Carries(p, WithKeys(NOTHING, asked)) && p.Field(FIELD_FLAGS) == 0
      ensures log == old(log) + Together(Classes(asked), Micros(now))
      ensures forall i :: 0 <= i < |asked| ==> AccompaniedBy(knownAnswers, ClassOf(asked[i]), now)
    {
      hide ValidJobs, WithKey, Job.Named, WellFormedName, NoNul, ClassOf, Proper, C.Cache.Valid, TableInside,
           Packet.Field, AccompaniedBy, Together, Classes, WithKeys, KeyTyped, Without;
      n, asked := 0, [];
      FirstFits(j, now);
      var ok := Ask(p, j, now, asked, log);
      if !ok {
        return;
      }
      n, asked := 1, [j.key];
      while jobs != []
        invariant ValidJobs() && AllProper(knownAnswers) && clock <= Micros(now)
        invariant n == |asked| && AllAskable(asked) && asked != [] && asked[0] == j.key
        invariant Carries(p, WithKeys(NOTHING, asked)) && p.Field(FIELD_FLAGS) == 0 && p.data.Length == Capacity(mtu)
        invariant InOrder(Without(old(jobs), j), jobs, asked)
        invariant log == old(log) + Together(Classes(asked), Micros(now))
        invariant forall i :: 0 <= i < |asked| ==> AccompaniedBy(knownAnswers, ClassOf(asked[i]), now)
        decreases |jobs|
      {
        ScheduledJobs();
        OnceEach();
        var next := jobs[0];
        assert next in jobs;
        InOrderMore(Without(old(jobs), j), jobs, asked);
        ok := Ask(p, next, now, asked, old(log));
        if !ok {
          NotFitting(asked, next.key);
          break;
        }
        asked := asked + [next.key];
        n := n + 1;
      }
    }

    lemma FirstFits(j: Job, now: Timeval)
      requires ValidJobs() && j in repr && !j.done
      ensures Askable(j.key) && AllAskable([]) && WithKeys(NOTHING, []) == NOTHING
      ensures [] + [j.key] == [j.key] && log + Together(Classes([]), Micros(now)) == log
    {
      hide Listed, OneJobEach, Past, Scheduled, Logged;
    }

    /** A question fits into every packet that has eighteen bytes more than its name; one without escapes fits
        into no smaller one. */
    lemma CanSendIff(k: Key)
      requires Askable(k)
      ensures |k.name| + 18 <= Capacity(mtu) ==> CanSend(k)
      ensures Unescaped(k.name) ==> (CanSend(k) <==> |k.name| + 18 <= Capacity(mtu))
    {
      hide WellFormedName, NameWire, U16, Unescaped;
      NameLength(HEADER_SIZE, map[], k.name);
      if Unescaped(k.name) {
        UnescapedLength(HEADER_SIZE, map[], k.name);
      }
    }

    lemma DueIsOver(j: Job, now: Timeval)
      requires ValidJobs() && j in repr && j.done && j.timeEvent.Some? && Micros(j.timeEvent.value) <= Micros(now)
      ensures Micros(now) >= Micros(j.delivery) + GAP
    {
      hide Listed, OneJobEach, Scheduled, Job.Named, Logged;
      assert Past(j);
      AfterMoves(j.delivery, HISTORY_MSEC);
    }
  }

  /** What questions are compared by. */
  ghost function Classes(ks: seq<Key>): seq<KeyClass>
    requires AllAskable(ks)
  {
    seq(|ks|, i requires 0 <= i < |ks| => ClassOf(ks[i]))
  }

  lemma ClassesMore(ks: seq<Key>, k: Key)
    requires AllAskable(ks) && Askable(k)
    ensures AllAskable(ks + [k]) && Classes(ks + [k]) == Classes(ks) + [ClassOf(k)]
  {
    hide Askable, ClassOf;
  }

  lemma NextResidue(n: nat)
    ensures (n % UINT_RANGE + 1) % UINT_RANGE == (n + 1) % UINT_RANGE
  {
  }

  /** One more known answer is dealt with. */
  lemma KeepsNext(all: seq<Record>, i: nat, before: seq<Message>, held: seq<Record>, more: seq<Message>,
                  answers: seq<Record>,
                  tooLarge: bool, capacity: nat)
    requires AllProper(all) && i < |all| && AllProper(all[..i]) && Keeps(all[..i], Answers(before) + held, capacity)
    requires |more| <= 1 && Answers(more) + answers == held + if tooLarge then [] else [all[i]]
    requires tooLarge ==> !FitsAlone(all[i], false, capacity)
    ensures AllProper(all[..i + 1]) && Keeps(all[..i + 1], Answers(before + more) + answers, capacity)
    ensures Packets(before + more) == Packets(before) + Packets(more)
  {
    hide FitsAlone, Proper, Keeps, Answers;
    AnswersOf(before, more);
    var r := all[i];
    var was := Answers(before) + held;
    assert all[..i + 1] == all[..i] + [r];
    assert Answers(before) + Answers(more) + answers == Answers(before) + (Answers(more) + answers);
    if tooLarge {
      assert held + [] == held;
      KeepsDropped(all[..i], was, capacity, r);
    } else {
      assert Answers(before) + (held + [r]) == was + [r];
      KeepsSent(all[..i], was, capacity, r);
    }
  }

  lemma CutNext(before: seq<Message>, more: seq<Message>, held: seq<Record>, all: seq<Record>, cuts: seq<nat>, i: nat,
                capacity: nat)
    requires CutsAt(before, all, cuts, capacity) && |cuts| == |before| && |more| <= 1
    requires i < |all| && AllProper(all[..i]) && Keeps(all[..i], Answers(before) + held, capacity)
    requires more != [] ==> more[0].answers == held && NoRoomFor(more[0], all[i], capacity)
    ensures CutsAt(before + more, all, cuts + if more == [] then [] else [i], capacity)
  {
    hide Answers, Keeps, NoRoomFor, CutsAt;
    if more == [] {
      assert before + more == before;
      var none: seq<nat> := [];
      assert cuts + none == cuts;
    } else {
      assert more == [more[0]];
      CutsMore(before, more[0], all, cuts, i, capacity);
    }
  }

  lemma RunNext(before: seq<Message>, more: seq<Message>, keys: seq<Key>, keys': seq<Key>)
    requires WellFormedRun(before, false) && AskedFirst(before, keys) && keys' == if before == [] then keys else []
    requires |more| <= 1 && WellFormedRun(more, false) && AskedFirst(more, keys')
    ensures WellFormedRun(before + more, false) && AskedFirst(before + more, keys)
  {
    hide WellFormedMessage;
  }

  lemma RunDone(ms: seq<Message>, m: Message, keys: seq<Key>)
    requires WellFormedRun(ms, false) && AskedFirst(ms, keys) && m.keys == if ms == [] then keys else []
    requires WellFormedMessage(m, false)
    ensures WellFormedRun(ms + [m], true) && AskedFirst(ms + [m], keys)
  {
    hide WellFormedMessage;
  }

  lemma OneMessage(m: Message, keys: seq<Key>)
    requires WellFormedMessage(m, true) && m.keys == keys
    ensures Answers([m]) == m.answers && Packets([m]) == [m.packet] && WellFormedRun([m], false)
            && AskedFirst([m], keys)
    ensures m.answers + [] == m.answers
  {
    hide WellFormedMessage;
    AnswersAppend([], m);
    assert [] + [m] == [m];
  }

  lemma NoMessages(keys: seq<Key>)
    ensures Answers([]) == [] && Packets([]) == [] && WellFormedRun([], false) && AskedFirst([], keys)
  {
  }

  lemma KeepsNothing(capacity: nat)
    ensures AllProper([]) && Keeps([], [], capacity)
  {
  }

  lemma AnswersOf(ms: seq<Message>, more: seq<Message>)
    requires |more| <= 1
    ensures Answers(ms + more) == Answers(ms) + Answers(more) && Packets(ms + more) == Packets(ms) + Packets(more)
  {
    hide Answers, Packets;
    NoMessages([]);
    if more == [] {
      assert ms + more == ms;
    } else {
      AnswersAppend(ms, more[0]);
      AnswersAppend([], more[0]);
      PacketsAppend(ms, more[0]);
      PacketsAppend([], more[0]);
      assert ms + more == ms + [more[0]] && more == [] + [more[0]];
    }
  }

  lemma SameResidue(a: nat, b: nat)
    requires a % UINT_RANGE == b % UINT_RANGE && a != b
    ensures a + UINT_RANGE <= b || b + UINT_RANGE <= a
  {
  }
}
