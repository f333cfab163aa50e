/** The record cache of avahi-core/cache.c: entries with an expiry state machine (section 5.2 of RFC 6762),
    goodbyes (10.1), cache flush (10.2) and passive observation of failure (10.5). */
module Cache {
  import opened Utf8
  import opened Domain
  import opened Rr
  import opened RecordWire
  import opened Timeval
  import opened Lists

  /** rand() gives values below this one. */
  const RAND_RANGE := 0x8000_0000
  const SECOND := 1000000

  datatype State = Valid | Expiry1 | Expiry2 | Expiry3 | ExpiryFinal | Poof | PoofFinal | GoodbyeFinal | ReplaceFinal {
    predicate Final() {
      ExpiryFinal? || PoofFinal? || GoodbyeFinal? || ReplaceFinal?
    }

    /** The deadline of a state, in percent of the TTL; the finals that follow an event have none. */
    function Percent(): (p: nat) {
      match this
      case Valid => 80
      case Poof => 80
      case Expiry1 => 85
      case Expiry2 => 90
      case Expiry3 => 95
      case _ => 100
    }

    /** How many firings of its time event an entry has behind it that nothing else happened to. */
    function Stage(): Option<nat> {
      match this
      case Valid => Some(0)
      case Poof => Some(0)
      case Expiry1 => Some(1)
      case Expiry2 => Some(2)
      case Expiry3 => Some(3)
      case ExpiryFinal => Some(4)
      case _ => None
    }
  }

  datatype Address = Ipv4(bytes: Text) | Ipv6(bytes: Text)

  datatype Notice = Added(record: Record) | Removed(record: Record)

  /** One firing of a time event: in which state, for which deadline, when, and whether the entry was removed. */
  datatype Firing = Firing(state: State, deadline: int, at: int, removed: bool)

  /** The part of an entry that passive observation of failure works on. */
  datatype Suspicion = Suspicion(state: State, expiry: Timeval, since: Timeval, num: nat, address: Address)

  /** What one more unanswered query does to an entry. */
  function Unanswered(s: Suspicion, a: Address, now: Timeval): Suspicion {
    if s.state.Valid? then Suspicion(Poof, s.expiry, now, 0, a)
    else if s.state.Poof? && Diff(now, s.since) >= SECOND then
      if s.num + 1 > 3 then Suspicion(PoofFinal, Add(now, SECOND), now, s.num + 1, a)
      else Suspicion(Poof, s.expiry, now, s.num + 1, a)
    else s
  }

  /** Suspicion does not touch an entry that is on its way out already. */
  lemma OnlyValidSuspected(s: Suspicion, a: Address, now: Timeval)
    requires !s.state.Valid? && !s.state.Poof?
    ensures Unanswered(s, a, now) == s
  {
  }

  /** A query for a key: which address it came from, and when. */
  datatype Query = Query(origin: Address, at: Timeval)

  /** An entry after a run of unanswered queries. */
  function UnansweredAll(s: Suspicion, qs: seq<Query>): Suspicion {
    if qs == [] then s
    else
      var q := qs[|qs| - 1];
      Unanswered(UnansweredAll(s, qs[..|qs| - 1]), q.origin, q.at)
  }

  /** The queries that count: the first one, and each that comes a second or more after the last one that did. */
  function Counted(qs: seq<Query>): seq<Query> {
    if qs == [] then []
    else
      var before, q := Counted(qs[..|qs| - 1]), qs[|qs| - 1];
      if before == [] || Diff(q.at, before[|before| - 1].at) >= SECOND then before + [q] else before
  }

  /** A valid entry is given up at the fifth query that counts, not earlier, whatever the run of queries and whoever
      they come from. The address that can take it back is that of the last one that counted. */
  lemma {:induction false} GivenUpAtFifth(s: Suspicion, qs: seq<Query>)
    requires s.state.Valid? && qs != []
    ensures var c := Counted(qs);
            && 1 <= |c| <= |qs|
            && UnansweredAll(s, qs) ==
               if |c| < 5 then Suspicion(Poof, s.expiry, c[|c| - 1].at, |c| - 1, c[|c| - 1].origin)
               else Suspicion(PoofFinal, Add(c[4].at, SECOND), c[4].at, 4, c[4].origin)
    decreases |qs|
  {
    hide Diff, Add;
    var front := qs[..|qs| - 1];
    if front == [] {
      assert UnansweredAll(s, front) == s;
    } else {
      GivenUpAtFifth(s, front);
    }
  }

  lemma WellFormedProper(r: Record)
    requires Proper(r)
    ensures RecordWellFormed(r)
  {
  }

  lemma GoodHolds(e: Entry)
    requires e.Good()
    ensures e.Holds()
  {
  }

  lemma FreshGood(e: Entry)
    requires Proper(e.record) && RecordClassOf(e.record) == e.identity && !IsPattern(e.record.key) && e.record.ttl > 0
    requires e.state.Valid? && e.Within(80) && e.timeEvent == Some(e.expiry)
    ensures e.Good()
  {
    hide Proper, RecordClassOf, IsPattern;
  }

  class Entry {
    /** What the record is compared by; it outlives the record, which updates replace. */
    ghost const identity: RecordClass
    var record: Record
    var timestamp: Timeval
    var poofTimestamp: Timeval
    var expiry: Timeval
    var cacheFlush: bool
    var poofNum: nat
    var origin: Address
    var state: State
    /** What the time event of the entry is set to. */
    var timeEvent: Option<Timeval>
    var poofAddress: Address
    /** When the event behind a goodbye, replace or poof final happened. */
    ghost var trigger: Timeval

    constructor (r: Record, a: Address, now: Timeval)
      requires RecordWellFormed(r)
      ensures record == r && identity == RecordClassOf(r) && timestamp == now
      ensures origin == a && state.Valid? && timeEvent.None?
    {
      record, identity := r, RecordClassOf(r);
      timestamp, poofTimestamp, expiry, trigger := now, now, now, now;
      cacheFlush, poofNum, origin, poofAddress, state, timeEvent := false, 0, a, a, Valid, None;
    }

    ghost function Suspected(): Suspicion
      reads this`state, this`expiry, this`poofTimestamp, this`poofNum, this`poofAddress
    {
      Suspicion(state, expiry, poofTimestamp, poofNum, poofAddress)
    }

    /** The deadline is between p and p + 2 percent of the TTL after the record was received. */
    ghost predicate Within(p: nat)
      reads this`record, this`timestamp, this`expiry
    {
      Micros(timestamp) + record.ttl * 10000 * p <= Micros(expiry) < Micros(timestamp) + record.ttl * 10000 * (p + 2)
    }

    ghost predicate Timely()
      reads this`record, this`timestamp, this`expiry, this`state, this`trigger
    {
      if state.PoofFinal? || state.GoodbyeFinal? || state.ReplaceFinal? then Micros(expiry) == Micros(trigger) + SECOND
      else Within(state.Percent())
    }

    /** The record is one that can be cached, and it is what the entry stands for. */
    ghost predicate Holds()
      reads this`record
    {
      Proper(record) && RecordClassOf(record) == identity && !IsPattern(record.key) && record.ttl > 0
    }

    ghost predicate Good()
      reads this
    {
      Holds() && Timely() && timeEvent == Some(expiry)
    }
  }

  // ---------------------------------------------------------------- lists of entries

  ghost predicate OtherRecords(s: seq<Entry>, i: int, j: int) {
    0 <= i < j < |s| ==> s[i].identity != s[j].identity
  }

  /** No two entries hold records that are equal ignoring the TTL. */
  ghost predicate AllApart(s: seq<Entry>) {
    forall i, j :: OtherRecords(s, i, j)
  }

  /** The entries of one key, in the order of the list. */
  ghost function WithKey(s: seq<Entry>, k: KeyClass): (r: seq<Entry>)
    ensures forall i :: 0 <= i < |r| ==> r[i] in s && r[i].identity.key == k
    ensures forall i :: 0 <= i < |s| && s[i].identity.key == k ==> s[i] in r
  {
    if s == [] then []
    else if s[0].identity.key == k then [s[0]] + WithKey(s[1..], k)
    else WithKey(s[1..], k)
  }

  lemma {:induction false} WithKeyWithout(s: seq<Entry>, k: KeyClass, e: Entry)
    ensures WithKey(Without(s, e), k) == Without(WithKey(s, k), e)
  {
    if s != [] {
      WithKeyWithout(s[1..], k, e);
      if s[0] != e {
        assert ([s[0]] + Without(s[1..], e))[1..] == Without(s[1..], e);
      }
      if s[0].identity.key == k {
        assert ([s[0]] + WithKey(s[1..], k))[1..] == WithKey(s[1..], k);
      }
    }
  }

  lemma AllApartTail(s: seq<Entry>)
    requires s != [] && AllApart(s)
    ensures AllApart(s[1..]) && s[0] !in s[1..]
  {
    forall i, j
      ensures OtherRecords(s[1..], i, j)
    {
      assert OtherRecords(s, i + 1, j + 1);
    }
    forall j | 1 <= j < |s|
      ensures s[j] != s[0]
    {
      assert OtherRecords(s, 0, j);
    }
  }

  lemma AllApartPrepend(e: Entry, s: seq<Entry>)
    requires AllApart(s) && forall x :: x in s ==> x.identity != e.identity
    ensures AllApart([e] + s)
  {
    forall i, j
      ensures OtherRecords([e] + s, i, j)
    {
      assert i > 0 ==> OtherRecords(s, i - 1, j - 1);
    }
  }

  lemma {:induction false} WithoutOne(s: seq<Entry>, e: Entry)
    requires AllApart(s)
    ensures AllApart(Without(s, e)) && |Without(s, e)| == |s| - if e in s then 1 else 0
  {
    if s != [] {
      AllApartTail(s);
      WithoutOne(s[1..], e);
      if s[0] == e {
        WithoutAbsent(s[1..], e);
      } else {
        forall x | x in Without(s[1..], e)
          ensures x.identity != s[0].identity
        {
          var j :| 1 <= j < |s| && s[j] == x;
          assert OtherRecords(s, 0, j);
        }
        AllApartPrepend(s[0], Without(s[1..], e));
      }
    }
  }

  /** Entries are told apart by what they hold. */
  lemma SameEntry(s: seq<Entry>, e: Entry, f: Entry)
    requires AllApart(s) && e in s && f in s && e.identity == f.identity
    ensures e == f
  {
    var i :| 0 <= i < |s| && s[i] == e;
    var j :| 0 <= j < |s| && s[j] == f;
    assert OtherRecords(s, i, j) && OtherRecords(s, j, i);
  }

  // ---------------------------------------------------------------- the log of notifications

  ghost function Identity(n: Notice): Option<RecordClass> {
    if RecordWellFormed(n.record) then Some(RecordClassOf(n.record)) else None
  }

  /** The records a subscriber knows after a log; None if a record is added twice or removed unknown. */
  ghost function Replay(log: seq<Notice>): Option<set<RecordClass>> {
    if log == [] then Some({})
    else
      var known, n := Replay(log[..|log| - 1]), log[|log| - 1];
      var id := Identity(n);
      if known.None? || id.None? || (n.Added? <==> id.value in known.value) then None
      else Some(if n.Added? then known.value + {id.value} else known.value - {id.value})
  }

  /** The notices about one record. */
  ghost function About(log: seq<Notice>, c: RecordClass): (r: seq<Notice>) {
    if log == [] then []
    else About(log[..|log| - 1], c) + if Identity(log[|log| - 1]) == Some(c) then [log[|log| - 1]] else []
  }

  ghost predicate Alternates(log: seq<Notice>) {
    forall i :: 0 <= i < |log| ==> (log[i].Added? <==> i % 2 == 0)
  }

  /** In a log that can be replayed the notices of each record alternate, an addition first, and the
      record is known exactly when the last of them was an addition. */
  lemma {:induction false} NoticesAlternate(log: seq<Notice>, c: RecordClass)
    requires Replay(log).Some?
    ensures Alternates(About(log, c))
    ensures c in Replay(log).value <==> |About(log, c)| % 2 == 1
  {
    hide Identity;
    if log != [] {
      var front := log[..|log| - 1];
      NoticesAlternate(front, c);
      if Identity(log[|log| - 1]) == Some(c) {
        assert About(log, c) == About(front, c) + [log[|log| - 1]];
      } else {
        assert About(log, c) == About(front, c);
      }
    }
  }

  lemma ReplayAppend(log: seq<Notice>, n: Notice)
    requires Replay(log).Some? && Identity(n).Some? && (n.Added? <==> Identity(n).value !in Replay(log).value)
    ensures Replay(log + [n]) ==
            Some(if n.Added? then Replay(log).value + {Identity(n).value} else Replay(log).value - {Identity(n).value})
  {
    assert (log + [n])[..|log|] == log;
  }

  // ---------------------------------------------------------------- deadlines

  lemma {:induction false} MulLess(a: nat, b: nat, c: nat)
    requires a > 0 && b < c
    ensures a * b < a * c
  {
    if a > 1 {
      MulLess(a - 1, b, c);
    }
    assert a * b == (a - 1) * b + b && a * c == (a - 1) * c + c;
  }

  /** The random part of a deadline stays below its range. */
  lemma JitterBelow(range: nat, draw: nat)
    requires range > 0 && draw < RAND_RANGE
    ensures 0 <= range * draw / RAND_RANGE < range
  {
    MulLess(range, draw, RAND_RANGE);
  }

  // ---------------------------------------------------------------- the cache

  /** What the hash map stores for a key: the key of the first entry of the list, and the list. */
  datatype Bucket = Bucket(key: Key, list: seq<Entry>)

  type Index = map<KeyClass, Bucket>

  function Listed(m: Index, k: KeyClass): seq<Entry> {
    if k in m then m[k].list else []
  }

  /** The list of a key holds exactly the entries of the full list with that key, in the same order. */
  ghost predicate IndexedAt(m: Index, s: seq<Entry>, k: KeyClass) {
    Listed(m, k) == WithKey(s, k) && (k in m ==> m[k].list != [])
  }

  ghost predicate Indexed(m: Index, s: seq<Entry>) {
    forall k :: IndexedAt(m, s, k)
  }

  /** The map after the list of a key has changed to t. */
  function Relisted(m: Index, k: KeyClass, key: Key, t: seq<Entry>): Index {
    if t == [] then m - {k} else m[k := Bucket(key, t)]
  }

  lemma IndexedWithout(m: Index, s: seq<Entry>, e: Entry, key: Key)
    requires Indexed(m, s)
    ensures Indexed(Relisted(m, e.identity.key, key, Without(Listed(m, e.identity.key), e)), Without(s, e))
  {
    var k := e.identity.key;
    var m' := Relisted(m, k, key, Without(Listed(m, k), e));
    forall c: KeyClass
      ensures IndexedAt(m', Without(s, e), c)
    {
      assert IndexedAt(m, s, c);
      WithKeyWithout(s, c, e);
      if c != k {
        WithoutAbsent(WithKey(s, c), e);
      }
    }
  }

  lemma IndexedPrepend(m: Index, s: seq<Entry>, e: Entry, key: Key)
    requires Indexed(m, s)
    ensures Indexed(Relisted(m, e.identity.key, key, [e] + Listed(m, e.identity.key)), [e] + s)
  {
    var k := e.identity.key;
    var m' := Relisted(m, k, key, [e] + Listed(m, k));
    assert ([e] + s)[1..] == s;
    forall c: KeyClass
      ensures IndexedAt(m', [e] + s, c)
    {
      assert IndexedAt(m, s, c);
    }
  }

  /** Storing a list under another key changes nothing but that. */
  lemma IndexedRekeyed(m: Index, s: seq<Entry>, k: KeyClass, key: Key)
    requires Indexed(m, s) && k in m
    ensures Indexed(m[k := Bucket(key, m[k].list)], s)
  {
    var m' := m[k := Bucket(key, m[k].list)];
    forall c: KeyClass
      ensures IndexedAt(m', s, c)
    {
      assert IndexedAt(m, s, c);
    }
  }

  /** What a scan of a list for a pattern finds. */
  ghost function Matching(s: seq<Entry>, pattern: KeyClass): (r: seq<Entry>)
    ensures forall i :: 0 <= i < |r| ==> r[i] in s && Matches(pattern, r[i].identity.key)
    ensures forall i :: 0 <= i < |s| && Matches(pattern, s[i].identity.key) ==> s[i] in r
  {
    if s == [] then []
    else Matching(s[..|s| - 1], pattern) + if Matches(pattern, s[|s| - 1].identity.key) then [s[|s| - 1]] else []
  }

  lemma {:induction false} WithKeyAppend(s: seq<Entry>, e: Entry, k: KeyClass)
    ensures WithKey(s + [e], k) == WithKey(s, k) + if e.identity.key == k then [e] else []
  {
    if s != [] {
      WithKeyAppend(s[1..], e, k);
      assert (s + [e])[1..] == s[1..] + [e];
    }
  }

  lemma {:induction false} MatchingApart(s: seq<Entry>, pattern: KeyClass)
    requires AllApart(s)
    ensures AllApart(Matching(s, pattern))
  {
    if s != [] {
      var front, e := s[..|s| - 1], s[|s| - 1];
      forall i, j
        ensures OtherRecords(front, i, j)
      {
        assert OtherRecords(s, i, j);
      }
      MatchingApart(front, pattern);
      var r := Matching(front, pattern);
      forall i | 0 <= i < |r|
        ensures r[i].identity != e.identity
      {
        var k :| 0 <= k < |front| && front[k] == r[i];
        assert OtherRecords(s, k, |s| - 1);
      }
      AllApartAppend(r, e);
      assert r + [] == r;
    }
  }

  lemma AllApartAppend(s: seq<Entry>, e: Entry)
    requires AllApart(s) && forall i :: 0 <= i < |s| ==> s[i].identity != e.identity
    ensures AllApart(s + [e])
  {
    forall i, j
      ensures OtherRecords(s + [e], i, j)
    {
      assert OtherRecords(s, i, j);
    }
  }

  /** For a key that is not a pattern a scan finds the entries of that key. */
  lemma {:induction false} MatchingKey(s: seq<Entry>, k: KeyClass)
    requires k.kind != TYPE_ANY && k.clazz != CLASS_ANY
    ensures Matching(s, k) == WithKey(s, k)
  {
    if s != [] {
      MatchingKey(s[..|s| - 1], k);
      WithKeyAppend(s[..|s| - 1], s[|s| - 1], k);
      assert s[..|s| - 1] + [s[|s| - 1]] == s;
    }
  }

  ghost function Identities(s: seq<Entry>): set<RecordClass> {
    set i | 0 <= i < |s| :: s[i].identity
  }

  lemma KeyOfClass(r: Record)
    requires RecordWellFormed(r)
    ensures WellFormedName(r.key.name) && RecordClassOf(r).key == ClassOf(r.key)
  {
  }

  lemma PrependedIdentities(e: Entry, s: seq<Entry>)
    requires forall x :: x in s ==> x.identity != e.identity
    ensures e.identity !in Identities(s) && Identities([e] + s) == Identities(s) + {e.identity}
  {
    var t := [e] + s;
    assert t[0].identity in Identities(t);
    forall c | c in Identities(s)
      ensures c in Identities(t) && c != e.identity
    {
      var i :| 0 <= i < |s| && s[i].identity == c;
      assert t[i + 1].identity == c;
    }
  }

  lemma HeadsHaveKey(m: Index, s: seq<Entry>)
    requires Indexed(m, s)
    ensures forall c :: c in m ==> m[c].list != [] && m[c].list[0].identity.key == c && m[c].list[0] in s
  {
    forall c | c in m
      ensures m[c].list != [] && m[c].list[0].identity.key == c && m[c].list[0] in s
    {
      assert IndexedAt(m, s, c);
    }
  }

  lemma PositiveTtl(e: Entry)
    requires e.Holds()
    ensures e.record.ttl > 0
  {
  }

  lemma ClassKind(k: Key)
    requires WellFormedName(k.name)
    ensures ClassOf(k).kind == k.kind && ClassOf(k).clazz == k.clazz
  {
  }

  lemma MatchedFound(s: seq<Entry>, e: Entry, k: KeyClass, visited: seq<Entry>)
    requires visited == Matching(s, k) && e in s && e.identity.key == k
    ensures e in visited
  {
    var i :| 0 <= i < |s| && s[i] == e;
  }

  lemma RemovedIdentities(s: seq<Entry>, e: Entry)
    requires AllApart(s) && e in s
    ensures e.identity in Identities(s) && Identities(Without(s, e)) == Identities(s) - {e.identity}
  {
    var r := Without(s, e);
    var k :| 0 <= k < |s| && s[k] == e;
    assert s[k].identity in Identities(s);
    forall c | c in Identities(s) && c != e.identity
      ensures c in Identities(r)
    {
      var i :| 0 <= i < |s| && s[i].identity == c;
      assert s[i] in r;
    }
    forall c | c in Identities(r)
      ensures c in Identities(s) && c != e.identity
    {
      var i :| 0 <= i < |r| && r[i].identity == c;
      assert r[i] in s;
      if c == e.identity {
        SameEntry(s, r[i], e);
      }
    }
  }

  class Cache {
    const limit: nat
    /** The list of all entries, the newest first. */
    var entries: seq<Entry>
    var hashmap: Index
    var nEntries: nat
    var lastRand: nat
    var lastRandTimestamp: int
    /** Notifications to subscribers, and keys that a query was posted for. */
    var log: seq<Notice>
    var queries: seq<Key>
    ghost var repr: set<Entry>

    /** Every list is stored under the key of the record of its first entry. */
    ghost predicate StoredKeys()
      requires repr == (set e | e in entries) && Indexed(hashmap, entries)
      reads this`hashmap, this`entries, this`repr, repr`record
    {
      forall k | k in hashmap :: StoredKeyAt(k)
    }

    ghost predicate StoredKeyAt(k: KeyClass)
      requires repr == (set e | e in entries) && Indexed(hashmap, entries) && k in hashmap
      reads this`hashmap, this`entries, this`repr, repr`record
    {
      assert IndexedAt(hashmap, entries, k);
      hashmap[k].key == hashmap[k].list[0].record.key
    }

    ghost predicate Structured()
      reads this`hashmap, this`entries, this`repr, this`nEntries, this`log
    {
      && repr == (set e | e in entries)
      && AllApart(entries) && nEntries == |entries| <= limit
      && Indexed(hashmap, entries)
      && Replay(log) == Some(Identities(entries))
    }

    ghost predicate Valid()
      reads this, repr
    {
      Structured() && StoredKeys() && lastRand < RAND_RANGE && forall e :: e in repr ==> e.Good()
    }

    constructor (limit: nat)
      ensures Valid() && entries == [] && log == [] && this.limit == limit && lastRandTimestamp == 0
    {
      this.limit := limit;
      entries, hashmap, nEntries, lastRand, lastRandTimestamp, log, queries, repr := [], map[], 0, 0, 0, [], [], {};
      new;
      assert Identities([]) == {};
    }

    /** remove_entry */
    method RemoveEntry(e: Entry)
      requires Valid() && e in repr
      modifies this`entries, this`hashmap, this`nEntries, this`log, this`repr
      ensures Valid() && entries == Without(old(entries), e) && repr == old(repr) - {e}
      ensures log == old(log) + [Removed(e.record)]
    {
      hide RecordClassOf, RecordWellFormed, IsPattern, WithKey, Without, Replay, Identities, AllApart, ClassOf,
           Entry.Timely, Entry.Within;
      assert e.Good() && Identity(Removed(e.record)) == Some(e.identity);
      KeyOfClass(e.record);
      var k := ClassOf(e.record.key);
      assert IndexedAt(hashmap, entries, k);
      var t := Without(Listed(hashmap, k), e);
      IndexedWithout(hashmap, entries, e, if t == [] then e.record.key else t[0].record.key);
      WithoutOne(entries, e);
      RemovedIdentities(entries, e);
      ReplayAppend(log, Removed(e.record));
      if t != [] {
        hashmap := hashmap[k := Bucket(t[0].record.key, t)];
      } else {
        hashmap := hashmap - {k};
      }
      entries := Without(entries, e);
      log := log + [Removed(e.record)];
      nEntries := nEntries - 1;
      repr := repr - {e};
    }

    // ---------------------------------------------------------------- deadlines

    /** next_expiry; the random number is drawn again at most every ten seconds. */
    method NextExpiry(e: Entry, percent: nat, now: Timeval, draw: nat)
      requires 0 < percent <= 100 && e.record.ttl > 0 && lastRand < RAND_RANGE && draw < RAND_RANGE
      modifies this`lastRand, this`lastRandTimestamp, e`expiry, e`timeEvent
      ensures e.Within(percent) && e.timeEvent == Some(e.expiry)
      ensures lastRand == (if now.sec >= old(lastRandTimestamp) + 10 then draw else old(lastRand)) < RAND_RANGE
      ensures lastRandTimestamp == if now.sec >= old(lastRandTimestamp) + 10 then now.sec else old(lastRandTimestamp)
    {
      var usec := e.record.ttl * 10000;
      var left := usec * percent;
      var right := usec * (percent + 2);
      if now.sec >= lastRandTimestamp + 10 {
        lastRand := draw;
        lastRandTimestamp := now.sec;
      }
      JitterBelow(right - left, lastRand);
      usec := left + (right - left) * lastRand / RAND_RANGE;
      AddMoves(e.timestamp, usec);
      e.expiry := Add(e.timestamp, usec);
      e.timeEvent := Some(e.expiry);
    }

    /** expire_in_one_second */
    method ExpireInOneSecond(e: Entry, state: State, now: Timeval)
      requires state.PoofFinal? || state.GoodbyeFinal? || state.ReplaceFinal?
      modifies e`state, e`expiry, e`timeEvent, e`trigger
      ensures e.state == state && e.Timely() && e.timeEvent == Some(e.expiry) && e.trigger == now
      ensures e.expiry == Add(now, SECOND)
    {
      e.state := state;
      e.trigger := now;
      AddMoves(now, SECOND);
      e.expiry := Add(now, SECOND);
      e.timeEvent := Some(e.expiry);
    }

    /** elapse_func: the time event of an entry fired, which it does not do before the deadline. */
    method Elapse(e: Entry, now: Timeval, refresh: bool, draw: nat)
      requires Valid() && e in repr && e.timeEvent.Some? && Micros(e.timeEvent.value) <= Micros(now)
               && draw < RAND_RANGE
      modifies this, e
      ensures Valid() && e.record == old(e.record) && e.timestamp == old(e.timestamp)
      ensures if old(e.state).Final() then
                && entries == Without(old(entries), e) && repr == old(repr) - {e}
                && log == old(log) + [Removed(e.record)] && queries == old(queries)
              else
                && entries == old(entries) && repr == old(repr) && log == old(log)
                && (match old(e.state)
                    case Expiry1 => e.state.Expiry2? && e.Within(90)
                    case Expiry2 => e.state.Expiry3? && e.Within(95)
                    case Expiry3 => e.state.ExpiryFinal? && e.Within(100)
                    case _ => e.state.Expiry1? && e.Within(85))
                && queries == old(queries) + if refresh then [e.record.key] else []
      ensures old(e.state).ExpiryFinal? ==> Micros(e.timestamp) + e.record.ttl * SECOND <= Micros(now)
      ensures old(e.state).Final() && !old(e.state).ExpiryFinal? ==> Micros(old(e.trigger)) + SECOND <= Micros(now)
    {
      hide Entry.Holds, WithKey, AllApart, Indexed, Replay, Identities, Without;
      assert e.Good();
      if e.state.Final() {
        RemoveEntry(e);
      } else {
        var percent: nat := 85;
        if e.state.Valid? || e.state.Poof? {
          e.state := Expiry1;
        } else if e.state.Expiry1? {
          e.state := Expiry2;
          percent := 90;
        } else if e.state.Expiry2? {
          e.state := Expiry3;
          percent := 95;
        } else {
          e.state := ExpiryFinal;
          percent := 100;
        }
        if refresh {
          queries := queries + [e.record.key];
        }
        NextExpiry(e, percent, now, draw);
      }
    }

    /** The i-th of n firings of an entry that was in a state at first. With k firings behind it the entry has its
        deadline between 80 + 5 k and 82 + 5 k percent of the TTL; it is removed at the last firing and at no other. */
    ghost predicate Fired(e: Entry, f: Firing, first: State, i: nat, late: nat, n: nat)
      requires first.Stage().Some?
      reads e`record, e`timestamp
    {
      && f.state.Stage() == Some(first.Stage().value + i) && f.at == f.deadline + late && (f.removed <==> i == n - 1)
      && var k := first.Stage().value + i;
         Micros(e.timestamp) + e.record.ttl * 10000 * (80 + 5 * k) <= f.deadline
           < Micros(e.timestamp) + e.record.ttl * 10000 * (82 + 5 * k)
    }

    lemma Deadline(e: Entry)
      requires Valid() && e in repr && e.state.Stage().Some?
      ensures e in entries && e.timeEvent == Some(e.expiry) && e.Within(80 + 5 * e.state.Stage().value)
    {
      hide Entry.Holds, StoredKeys, AllApart, Indexed, Replay, Identities;
      assert e.Good();
    }

    /** An entry that nothing else happens to: its time event fires again and again, each time as late as it likes,
        until the entry is gone. One that is valid or suspected is removed at the fifth firing; its deadlines come at
        80, 85, 90, 95 and 100 percent of the TTL, and less than two percent later. */
    method LeaveAlone(e: Entry, late: seq<nat>, refresh: seq<bool>, draws: seq<nat>)
      returns (ghost firings: seq<Firing>)
      requires Valid() && e in repr && e.state.Stage().Some?
      requires |late| == |refresh| == |draws| == 5 - e.state.Stage().value
      requires forall i :: 0 <= i < |draws| ==> draws[i] < RAND_RANGE
      modifies this, e
      ensures Valid() && entries == Without(old(entries), e) && log == old(log) + [Removed(e.record)]
      ensures e.record == old(e.record) && e.timestamp == old(e.timestamp) && |firings| == |late|
      ensures forall i :: 0 <= i < |firings| ==> Fired(e, firings[i], old(e.state), i, late[i], |firings|)
    {
      hide Entry.Holds, StoredKeys, AllApart, Indexed, Replay, Identities, Entry.Timely, Without;
      firings := [];
      var i := 0;
      while e in entries
        invariant i == |firings| <= |late| && Valid() && (e in entries <==> i < |late|) && (e in entries <==> e in repr)
        invariant e.record == old(e.record) && e.timestamp == old(e.timestamp)
        invariant i < |late| ==> e.state.Stage() == Some(old(e.state).Stage().value + i)
        invariant i < |late| ==> entries == old(entries) && log == old(log)
        invariant i == |late| ==> entries == Without(old(entries), e) && log == old(log) + [Removed(e.record)]
        invariant forall n :: 0 <= n < i ==> Fired(e, firings[n], old(e.state), n, late[n], |late|)
        decreases |late| - i
      {
        Deadline(e);
        ghost var state := e.state;
        ghost var deadline := Micros(e.expiry);
        AddMoves(e.expiry, late[i]);
        var now := Add(e.expiry, late[i]);
        WithoutHolds(entries, e);
        Elapse(e, now, refresh[i], draws[i]);
        firings := firings + [Firing(state, deadline, Micros(now), e !in entries)];
        i := i + 1;
      }
    }

    // ---------------------------------------------------------------- finding entries

    /** avahi_cache_walk: the entries that the callback is called for, in order. A walk over the list of
        one key visits exactly what a scan of the full list would. */
    method Walk(pattern: Key) returns (visited: seq<Entry>)
      requires Valid() && KeyWellFormed(pattern)
      ensures visited == Matching(entries, ClassOf(pattern))
    {
      hide RecordClassOf, Replay, Identities, ClassOf, Entry.Timely, Canon;
      if IsPattern(pattern) {
        visited := [];
        for i := 0 to |entries|
          invariant visited == Matching(entries[..i], ClassOf(pattern))
        {
          assert entries[i] in repr && entries[i].Good();
          KeyOfClass(entries[i].record);
          var m := KeyPatternMatch(pattern, entries[i].record.key);
          assert entries[..i + 1][..i] == entries[..i];
          if m {
            visited := visited + [entries[i]];
          }
        }
        assert entries[..|entries|] == entries;
      } else {
        visited := Listed(hashmap, ClassOf(pattern));
        assert IndexedAt(hashmap, entries, ClassOf(pattern));
        ClassKind(pattern);
        MatchingKey(entries, ClassOf(pattern));
      }
    }

    /** lookup_record */
    method LookupRecord(r: Record) returns (found: Option<Entry>)
      requires Valid() && RecordWellFormed(r)
      ensures found.Some? ==> found.value in repr && found.value.identity == RecordClassOf(r)
      ensures found.None? ==> forall e :: e in repr ==> e.identity != RecordClassOf(r)
    {
      hide RecordClassOf, Replay, Identities, ClassOf, Entry.Timely, Canon, Matching, WithKey, AllApart;
      var visited := Walk(r.key);
      KeyOfClass(r);
      for i := 0 to |visited|
        invariant forall j :: 0 <= j < i ==> visited[j].identity != RecordClassOf(r)
      {
        assert visited[i] in repr && visited[i].Good();
        var same := RecordEqualNoTtl(visited[i].record, r);
        if same {
          return Some(visited[i]);
        }
      }
      forall e | e in repr
        ensures e.identity != RecordClassOf(r)
      {
        if e.identity == RecordClassOf(r) {
          MatchedFound(entries, e, ClassOf(r.key), visited);
        }
      }
      found := None;
    }

    /** The entry is in the second half of its TTL; the age is an unsigned int. */
    static predicate PastHalf(e: Entry, now: Timeval)
      reads e`record, e`timestamp
    {
      TruncDiv(Diff(now, e.timestamp), SECOND) % UINT_RANGE >= e.record.ttl / 2
    }

    /** avahi_cache_entry_half_ttl */
    method EntryHalfTtl(e: Entry, now: Timeval) returns (r: bool)
      ensures r <==> PastHalf(e, now)
      ensures 0 <= Micros(now) - Micros(e.timestamp) < UINT_RANGE * SECOND ==>
                (r <==> Micros(e.timestamp) + e.record.ttl / 2 * SECOND <= Micros(now))
    {
      DiffIsDistance(now, e.timestamp);
      var age := TruncDiv(Diff(now, e.timestamp), SECOND) % UINT_RANGE;
      r := age >= e.record.ttl / 2;
    }

    /** avahi_cache_flush */
    method Flush()
      requires Valid()
      modifies this`entries, this`hashmap, this`nEntries, this`log, this`repr
      ensures Valid() && entries == []
      ensures |log| == |old(log)| + |old(entries)|
      ensures forall i :: 0 <= i < |old(entries)| ==> log[|old(log)| + i] == Removed(old(entries)[i].record)
    {
      hide Valid, Without;
      ghost var was, before := entries, log;
      ghost var i := 0;
      while entries != []
        invariant Valid() && 0 <= i <= |was| && entries == was[i..]
        invariant |log| == |before| + i
        invariant forall j :: 0 <= j < i ==> log[|before| + j] == Removed(was[j].record)
        decreases |entries|
      {
        FirstEntry();
        RemoveEntry(entries[0]);
        i := i + 1;
      }
    }

    lemma FirstEntry()
      requires Valid() && entries != []
      ensures entries[0] in repr && Without(entries, entries[0]) == entries[1..]
    {
      hide Replay, Identities, Indexed, StoredKeys, Entry.Good;
      AllApartTail(entries);
      WithoutAbsent(entries[1..], entries[0]);
    }

    // ---------------------------------------------------------------- passive observation of failure

    /** start_poof_callback */
    method StartPoofEntry(e: Entry, a: Address, now: Timeval)
      modifies e`state, e`expiry, e`timeEvent, e`trigger, e`poofTimestamp, e`poofAddress, e`poofNum
      ensures e.Suspected() == Unanswered(old(e.Suspected()), a, now)
      ensures old(e.Good()) ==> e.Good()
    {
      hide Entry.Holds;
      if e.state.Valid? {
        e.state := Poof;
        e.poofAddress := a;
        e.poofTimestamp := now;
        e.poofNum := 0;
      } else if e.state.Poof? {
        if Diff(now, e.poofTimestamp) < SECOND {
          return;
        }
        e.poofTimestamp := now;
        e.poofAddress := a;
        e.poofNum := e.poofNum + 1;
        if e.poofNum > 3 {
          ExpireInOneSecond(e, PoofFinal, now);
        }
      }
    }

    /** avahi_cache_start_poof: a query for the key was seen. */
    method StartPoof(key: Key, a: Address, now: Timeval)
      requires Valid() && KeyWellFormed(key)
      modifies repr
      ensures Valid()
      ensures forall e :: e in repr ==> e.record == old(e.record) && e.timestamp == old(e.timestamp)
      ensures forall e :: e in repr ==>
                e.Suspected() == if Matches(ClassOf(key), e.identity.key) then Unanswered(old(e.Suspected()), a, now)
                                 else old(e.Suspected())
    {
      hide RecordClassOf, Replay, Identities, ClassOf, Entry.Timely, Entry.Holds, Canon, WithKey, Unanswered;
      var visited := Walk(key);
      MatchingApart(entries, ClassOf(key));
      for i := 0 to |visited|
        invariant Valid()
        invariant forall e :: e in repr ==> e.record == old(e.record) && e.timestamp == old(e.timestamp)
        invariant forall j :: 0 <= j < i ==> visited[j].Suspected() == Unanswered(old(visited[j].Suspected()), a, now)
        invariant forall e :: e in repr && e !in visited[..i] ==> e.Suspected() == old(e.Suspected())
      {
        forall j | 0 <= j < i
          ensures visited[j] != visited[i]
        {
          assert OtherRecords(visited, j, i);
        }
        assert visited[i] in repr;
        StartPoofEntry(visited[i], a, now);
      }
      forall e | e in repr
        ensures e in visited <==> Matches(ClassOf(key), e.identity.key)
      {
        var i :| 0 <= i < |entries| && entries[i] == e;
      }
    }

    /** avahi_cache_stop_poof: somebody else at that address knows the record. */
    method StopPoof(record: Record, a: Address, now: Timeval, draw: nat)
      requires Valid() && RecordWellFormed(record) && draw < RAND_RANGE
      modifies this`lastRand, this`lastRandTimestamp, repr
      ensures Valid()
      ensures forall e :: e in repr ==>
                if e.identity == RecordClassOf(record) && old(e.state.Poof? || e.state.PoofFinal?)
                  && old(e.poofAddress) == a then
                  e.state.Valid? && e.record == old(e.record) && e.timestamp == old(e.timestamp)
                else
                  unchanged(e)
    {
      hide RecordClassOf, Replay, Identities, ClassOf, Entry.Holds, Canon, WithKey, RecordWellFormed;
      var found := LookupRecord(record);
      if found.None? {
        return;
      }
      var e := found.value;
      assert e.Good();
      forall f | f in repr && f.identity == e.identity
        ensures f == e
      {
        SameEntry(entries, f, e);
      }
      if e.state.Poof? || e.state.PoofFinal? {
        if e.poofAddress == a {
          PositiveTtl(e);
          e.state := State.Valid;
          NextExpiry(e, 80, now, draw);
        }
      }
    }

    // ---------------------------------------------------------------- avahi_cache_update

    lemma OnlyOne()
      requires Valid()
      ensures forall e, f | e in repr && f in repr && e.identity == f.identity :: e == f
    {
      forall e, f | e in repr && f in repr && e.identity == f.identity
        ensures e == f
      {
        SameEntry(entries, e, f);
      }
    }

    /** The record has just been received. */
    ghost predicate Current(e: Entry, r: Record, flush: bool, a: Address, now: Timeval)
      reads e
    {
      e.record == r && e.timestamp == now && e.state.Valid? && e.Within(80) && e.cacheFlush == flush && e.origin == a
    }

    lemma ListedMembers(k: KeyClass)
      requires Valid()
      ensures forall e | e in Listed(hashmap, k) :: e in repr
      ensures forall e | e in repr :: e in Listed(hashmap, k) <==> e.identity.key == k
    {
      hide RecordClassOf, Replay, Identities, ClassOf, AllApart, StoredKeys;
      assert IndexedAt(hashmap, entries, k);
      forall e | e in repr
        ensures e in Listed(hashmap, k) <==> e.identity.key == k
      {
        var i :| 0 <= i < |entries| && entries[i] == e;
      }
    }

    /** Entries of a unique key that are older than a second are to be replaced. */
    method FlushOlder(k: KeyClass, now: Timeval)
      requires Valid()
      modifies repr
      ensures Valid()
      ensures forall e :: e in repr ==>
                && e.record == old(e.record)
                && if e.identity.key == k && Diff(now, old(e.timestamp)) > SECOND then
                     e.state.ReplaceFinal? && e.expiry == Add(now, SECOND)
                   else
                     unchanged(e)
    {
      hide RecordClassOf, Replay, Identities, ClassOf, Entry.Timely, Entry.Holds, WithKey, Structured, StoredKeys;
      var list := Listed(hashmap, k);
      ListedMembers(k);
      for i := 0 to |list|
        invariant Valid()
        invariant forall e :: e in repr ==> e.record == old(e.record) && e.timestamp == old(e.timestamp)
        invariant forall e :: e in repr && e in list[..i] && Diff(now, old(e.timestamp)) > SECOND ==>
                    e.state.ReplaceFinal? && e.expiry == Add(now, SECOND)
        invariant forall e :: e in repr && !(e in list[..i] && Diff(now, old(e.timestamp)) > SECOND) ==> unchanged(e)
      {
        var e := list[i];
        assert e in repr && e.Good();
        if Diff(now, e.timestamp) > SECOND {
          ExpireInOneSecond(e, ReplaceFinal, now);
        }
      }
    }

    /** An entry takes over a record that is equal to its own; if it is the first of its key, the key of
        the new record is stored from now on. */
    method ReplaceRecord(e: Entry, r: Record)
      requires Structured() && StoredKeys() && e in repr && e.Holds()
      requires Proper(r) && RecordClassOf(r) == e.identity && !IsPattern(r.key) && r.ttl > 0
      modifies this`hashmap, e`record
      ensures Structured() && StoredKeys() && e.Holds() && e.record == r
    {
      hide RecordClassOf, Replay, Identities, ClassOf, WithKey, AllApart, RecordWellFormed;
      KeyOfClass(r);
      var k := ClassOf(r.key);
      assert IndexedAt(hashmap, entries, k);
      assert e in Listed(hashmap, k) by {
        var i :| 0 <= i < |entries| && entries[i] == e;
      }
      IndexedRekeyed(hashmap, entries, k, r.key);
      HeadsHaveKey(hashmap, entries);
      assert forall c | c in hashmap :: StoredKeyAt(c);
      if Listed(hashmap, k)[0] == e {
        hashmap := hashmap[k := Bucket(r.key, hashmap[k].list)];
      }
      e.record := r;
    }

    method TakeOver(e: Entry, r: Record, flush: bool, a: Address, now: Timeval, draw: nat)
      requires Valid() && e in repr && Proper(r) && RecordClassOf(r) == e.identity && !IsPattern(r.key) && r.ttl > 0
      requires draw < RAND_RANGE
      modifies this`hashmap, this`lastRand, this`lastRandTimestamp, e
      ensures Valid() && Current(e, r, flush, a, now)
    {
      hide RecordClassOf, Replay, Identities, ClassOf, WithKey, AllApart, Proper, Structured, StoredKeys, Entry.Good;
      GoodHolds(e);
      ReplaceRecord(e, r);
      e.origin := a;
      e.timestamp := now;
      NextExpiry(e, 80, now, draw);
      e.state := State.Valid;
      e.cacheFlush := flush;
      FreshGood(e);
    }

    /** A new entry comes first in both of its lists. */
    method Prepend(e: Entry, r: Record)
      requires Structured() && StoredKeys() && e !in repr && e.record == r && Proper(r)
               && e.identity == RecordClassOf(r)
      requires forall x :: x in repr ==> x.identity != e.identity
      requires nEntries < limit
      modifies this`entries, this`hashmap, this`nEntries, this`log, this`repr
      ensures Structured() && StoredKeys() && entries == [e] + old(entries)
      ensures |entries| == |old(entries)| + 1 && entries[1..] == old(entries)
      ensures log == old(log) + [Added(r)] && repr == old(repr) + {e}
    {
      hide RecordClassOf, Replay, Identities, ClassOf, WithKey, AllApart, RecordWellFormed;
      KeyOfClass(r);
      assert Identity(Added(r)) == Some(e.identity);
      var k := ClassOf(r.key);
      HeadsHaveKey(hashmap, entries);
      assert forall c | c in hashmap :: StoredKeyAt(c);
      IndexedPrepend(hashmap, entries, e, r.key);
      AllApartPrepend(e, entries);
      PrependedIdentities(e, entries);
      ReplayAppend(log, Added(r));
      hashmap := hashmap[k := Bucket(r.key, [e] + Listed(hashmap, k))];
      entries := [e] + entries;
      nEntries := nEntries + 1;
      log := log + [Added(r)];
      repr := repr + {e};
    }

    method Enter(r: Record, flush: bool, a: Address, now: Timeval, draw: nat)
      requires Valid() && Proper(r) && !IsPattern(r.key) && r.ttl > 0 && nEntries < limit && draw < RAND_RANGE
      requires forall e :: e in repr ==> e.identity != RecordClassOf(r)
      modifies this`entries, this`hashmap, this`nEntries, this`log, this`repr, this`lastRand, this`lastRandTimestamp
      ensures Valid() && |entries| == |old(entries)| + 1 && entries[1..] == old(entries) && fresh(entries[0])
      ensures entries[0].identity == RecordClassOf(r) && Current(entries[0], r, flush, a, now)
      ensures log == old(log) + [Added(r)] && repr == old(repr) + {entries[0]}
    {
      hide RecordClassOf, Replay, Identities, ClassOf, WithKey, AllApart, Structured, StoredKeys, Proper,
           RecordWellFormed, Entry.Good;
      WellFormedProper(r);
      var e := new Entry(r, a, now);
      Prepend(e, r);
      NextExpiry(e, 80, now, draw);
      e.cacheFlush := flush;
      FreshGood(e);
    }

    /** avahi_cache_update: a record was received from the network. */
    method Update(r: Record, flush: bool, a: Address, now: Timeval, draw: nat)
      requires Valid() && Proper(r) && !IsPattern(r.key) && draw < RAND_RANGE
      modifies this`entries, this`hashmap, this`nEntries, this`log, this`repr, this`lastRand, this`lastRandTimestamp,
               repr
      ensures Valid()
      // a goodbye: one second is left to the entry of the record
      ensures r.ttl == 0 ==> entries == old(entries) && log == old(log)
      ensures r.ttl == 0 ==> forall e :: e in old(repr) ==>
                if e.identity == RecordClassOf(r) then
                  e.state.GoodbyeFinal? && e.expiry == Add(now, SECOND) && e.record == old(e.record)
                else unchanged(e)
      // a known record starts a new life
      ensures r.ttl > 0 ==> forall e :: e in old(repr) && e.identity == RecordClassOf(r) ==>
                Current(e, r, flush, a, now) && entries == old(entries) && log == old(log)
      // an unknown record gets an entry if there is room
      ensures r.ttl > 0 && (forall e :: e in old(repr) ==> e.identity != RecordClassOf(r)) ==>
                if |old(entries)| >= limit then entries == old(entries) && log == old(log)
                else && |entries| == |old(entries)| + 1 && entries[1..] == old(entries) && fresh(entries[0])
                     && entries[0].identity == RecordClassOf(r) && Current(entries[0], r, flush, a, now)
                     && log == old(log) + [Added(r)]
      // of the others, those of a unique key that are older than a second are replaced
      ensures r.ttl > 0 ==> forall e :: e in old(repr) && e.identity != RecordClassOf(r) ==>
                if flush && e.identity.key == ClassOf(r.key) && Diff(now, old(e.timestamp)) > SECOND then
                  e.state.ReplaceFinal? && e.expiry == Add(now, SECOND) && e.record == old(e.record)
                else unchanged(e)
    {
      hide RecordClassOf, Replay, Identities, ClassOf, WithKey, AllApart, RecordWellFormed, Indexed, StoredKeys,
           Entry.Holds,
           Entry.Timely, Entry.Within;
      if r.ttl == 0 {
        var found := LookupRecord(r);
        OnlyOne();
        if found.Some? {
          assert found.value.Good();
          ExpireInOneSecond(found.value, GoodbyeFinal, now);
        }
      } else {
        KeyOfClass(r);
        OnlyOne();
        if flush {
          FlushOlder(ClassOf(r.key), now);
        }
        var found := LookupRecord(r);
        if found.Some? {
          TakeOver(found.value, r, flush, a, now, draw);
        } else {
          if nEntries >= limit {
            return;
          }
          Enter(r, flush, a, now, draw);
        }
      }
    }
  }
}
