/** What a receiver reads from a packet: the questions and records that were put into it. */
module Delivery {
  import opened Utf8
  import opened Lists
  import opened Domain
  import opened Wire
  import opened Rr
  import opened RecordWire
  import opened RecordRoundTrip
  import opened DnsPacket
  import opened PacketContents

  datatype Received<T> = Lost | Received(items: seq<T>, next: nat)

  /** n questions in a row, from idx on. */
  function ReadKeys(b: Text, idx: nat, n: nat): Received<Key> {
    if n == 0 then Received([], idx) else NextKey(b, ReadKeys(b, idx, n - 1))
  }

  function NextKey(b: Text, front: Received<Key>): Received<Key> {
    if front.Lost? then Lost
    else
      var k := ReadKey(b, front.next);
      if k.NoKey? then Lost else Received(front.items + [k.key], k.next)
  }

  /** n records in a row, from idx on, with their cache flush bits. */
  function ReadRecords(b: Text, idx: nat, n: nat): Received<Item> {
    if n == 0 then Received([], idx) else NextRecord(b, ReadRecords(b, idx, n - 1))
  }

  function NextRecord(b: Text, front: Received<Item>): Received<Item> {
    if front.Lost? then Lost
    else
      var r := ReadRecord(b, front.next);
      if r.NoRecord? then Lost else Received(front.items + [Item(r.record, r.flush)], r.next)
  }

  // ---------------------------------------------------------------- receiving

  /** The questions of a packet, as a query is handled: up to the first one that cannot be read. */
  method ConsumeKeys(p: Packet, n: nat) returns (keys: seq<Key>)
    requires p.Valid()
    modifies p`rindex
    ensures p.Valid() && |keys| <= n
    ensures ReadKeys(p.View(), old(p.rindex), |keys|).Received?
            && ReadKeys(p.View(), old(p.rindex), |keys|).items == keys
    ensures |keys| < n ==> ReadKeys(p.View(), old(p.rindex), |keys| + 1).Lost?
    ensures |keys| == n ==> p.rindex == ReadKeys(p.View(), old(p.rindex), n).next
  {
    hide ReadKey;
    ghost var b, start := p.View(), p.rindex;
    keys := [];
    for i := 0 to n
      invariant p.Valid() && p.View() == b && |keys| == i && ReadKeys(b, start, i) == Received(keys, p.rindex)
    {
      var k, unicast := p.ConsumeKey();
      if k.None? {
        return;
      }
      keys := keys + [k.value];
    }
  }

  /** The records of a packet, as a query or a response is handled. */
  method ConsumeRecords(p: Packet, n: nat) returns (items: seq<Item>)
    requires p.Valid()
    modifies p`rindex
    ensures p.Valid() && |items| <= n
    ensures ReadRecords(p.View(), old(p.rindex), |items|).Received?
    ensures ReadRecords(p.View(), old(p.rindex), |items|).items == items
    ensures |items| < n ==> ReadRecords(p.View(), old(p.rindex), |items| + 1).Lost?
    ensures |items| == n ==> p.rindex == ReadRecords(p.View(), old(p.rindex), n).next
  {
    hide ReadRecord;
    ghost var b, start := p.View(), p.rindex;
    items := [];
    for i := 0 to n
      invariant p.Valid() && p.View() == b && |items| == i && ReadRecords(b, start, i) == Received(items, p.rindex)
    {
      var r, flush := p.ConsumeRecord();
      if r.None? {
        return;
      }
      items := items + [Item(r.value, flush)];
    }
  }

  // ---------------------------------------------------------------- what was sent is received

  /** Questions whose names have few enough labels, and classes without the flag bit. */
  predicate Readable(k: Key) {
    KeyTyped(k) && NormalName(k.name) && k.clazz < FLAG_BIT && |Labels(k.name)| <= SAFE_LABELS
  }

  predicate AllReadable(ks: seq<Key>) {
    forall i :: 0 <= i < |ks| ==> Readable(ks[i])
  }

  /** The names fit the buffer that a receiver reads them into. */
  predicate AllShort(ks: seq<Key>) {
    forall i :: 0 <= i < |ks| ==> |ks[i].name| < KEY_NAME_MAX
  }

  ghost predicate Sound(header: Text, c: Contents) {
    |header| == HEADER_SIZE && TableOk(header + c.body, c.table)
  }

  lemma SoundNothing(header: Text)
    requires |header| == HEADER_SIZE
    ensures Sound(header, NOTHING)
  {
  }

  lemma KeySound(header: Text, c: Contents, k: Key)
    requires Sound(header, c) && Askable(k)
    ensures Sound(header, WithKey(c, k, false))
    ensures var w := KeyWire(HEADER_SIZE + |c.body|, c.table, k, false);
            w.Wired? && header + WithKey(c, k, false).body == header + c.body + w.bytes
  {
    hide TableOk, KeyWire;
    KeyWritable(HEADER_SIZE + |c.body|, c.table, k, false);
    KeyKeepsTable(header + c.body, c.table, k, false);
    ConcatAssociative(header, c.body, KeyWire(HEADER_SIZE + |c.body|, c.table, k, false).bytes);
  }

  lemma ReadableAskable(ks: seq<Key>)
    requires AllReadable(ks)
    ensures AllAskable(ks)
  {
  }

  lemma OneKeyReadsBack(header: Text, c: Contents, k: Key, b: Text)
    requires Sound(header, c) && Askable(k) && Readable(k) && header + WithKey(c, k, false).body <= b
    ensures ReadKey(b, HEADER_SIZE + |c.body|) ==
            if |k.name| >= KEY_NAME_MAX then NoKey else KeyRead(k, false, HEADER_SIZE + |WithKey(c, k, false).body|)
  {
    hide TableOk, KeyWire, ReadKey, NormalName, Labels;
    KeyWritable(HEADER_SIZE + |c.body|, c.table, k, false);
    KeySound(header, c, k);
    KeyReadsBack(header + c.body, c.table, k, false, b);
  }

  lemma FrontBytes(header: Text, x: Text, y: Text, b: Text)
    requires header + y <= b && x <= y
    ensures header + x <= b
  {
    assert (header + y)[..|header + x|] == header + x;
  }

  lemma KeyGrows(c: Contents, k: Key)
    requires Askable(k)
    ensures c.body <= WithKey(c, k, false).body
  {
  }

  /** The questions of a packet are read as they were put in, in their order, exactly when their names are
      short enough. */
  lemma {:induction false} KeysReadBack(header: Text, ks: seq<Key>, b: Text)
    requires |header| == HEADER_SIZE && AllReadable(ks)
    requires header + WithKeys(NOTHING, ks).body <= b
    ensures Sound(header, WithKeys(NOTHING, ks))
    ensures ReadKeys(b, HEADER_SIZE, |ks|) ==
            if AllShort(ks) then Received(ks, HEADER_SIZE + |WithKeys(NOTHING, ks).body|) else Lost
  {
    hide TableOk, KeyWire, ReadKey, Sound, Readable, WithKey, Askable, AllReadable, AllShort, WithKeys;
    if ks == [] {
      NoKeys();
      SoundNothing(header);
    } else {
      var front, k := ks[..|ks| - 1], ks[|ks| - 1];
      LastKey(ks, front, k);
      var c := WithKeys(NOTHING, front);
      KeyGrows(c, k);
      FrontBytes(header, c.body, WithKey(c, k, false).body, b);
      KeysReadBack(header, front, b);
      KeySound(header, c, k);
      OneKeyReadsBack(header, c, k, b);
    }
  }

  lemma NoKeys()
    ensures AllReadable([]) && AllAskable([]) && AllShort([]) && WithKeys(NOTHING, []) == NOTHING
  {
  }

  lemma LastKey(ks: seq<Key>, front: seq<Key>, k: Key)
    requires AllReadable(ks) && ks != [] && front == ks[..|ks| - 1] && k == ks[|ks| - 1]
    ensures AllAskable(ks) && AllAskable(front) && AllReadable(front) && Readable(k) && Askable(k) && front + [k] == ks
    ensures AllShort(ks) <==> AllShort(front) && |k.name| < KEY_NAME_MAX
    ensures WithKeys(NOTHING, ks) == WithKey(WithKeys(NOTHING, front), k, false)
  {
    hide WithKey, Askable, Readable;
    ReadableAskable(ks);
    assert AllShort(front) && |k.name| < KEY_NAME_MAX ==> forall i :: 0 <= i < |ks| ==> ks[i] == k || ks[i] == front[i];
  }

  // ---------------------------------------------------------------- records

  /** What arrives of a record: the names in its data in normal form, and a TTL of 2^32 - 1 as 75 minutes. */
  function Arriving(i: Item): Item
    requires Sendable(i.record)
  {
    Item(NormalRecord(i.record).(ttl := if i.record.ttl == 0xFFFF_FFFF then 4500 else i.record.ttl), i.flush)
  }

  predicate AllSendable(items: seq<Item>) {
    forall i :: 0 <= i < |items| ==> Sendable(items[i].record) && Proper(items[i].record)
  }

  function AllArriving(items: seq<Item>): (a: seq<Item>)
    requires AllSendable(items)
  {
    if items == [] then [] else AllArriving(items[..|items| - 1]) + [Arriving(items[|items| - 1])]
  }

  /** The data of a record, written behind these contents, names the root by "." with nothing to point at. */
  predicate LosesRoot(c: Contents, r: Record) {
    var n := NameWire(HEADER_SIZE + |c.body|, c.table, r.key.name);
    n.Wired? && RootMisencoded(n.table, r.data)
  }

  /** No record behind these contents is written so that it cannot be read. */
  predicate NoneLost(c: Contents, items: seq<Item>)
    requires AllSendable(items)
  {
    items == [] || (
      var front := items[..|items| - 1];
      NoneLost(c, front) && !LosesRoot(WithRecords(c, front), items[|items| - 1].record))
  }

  lemma RecordSound(header: Text, c: Contents, r: Record, flush: bool)
    requires Sound(header, c) && Proper(r)
    ensures Sound(header, WithRecord(c, r, flush)) && c.body <= WithRecord(c, r, flush).body
    ensures RdataFits(HEADER_SIZE + |c.body|, c.table, r)
    ensures var w := WireOf(HEADER_SIZE + |c.body|, c.table, r, flush, 0);
            w.Wired? && header + WithRecord(c, r, flush).body == header + c.body + w.bytes
  {
    hide TableOk, WireOf, RdataFits, RecordTyped, RecordWellFormed, RecordValid;
    RecordWritable(HEADER_SIZE + |c.body|, c.table, r, flush);
    RecordKeepsTable(header + c.body, c.table, r, flush, 0);
    ConcatAssociative(header, c.body, WireOf(HEADER_SIZE + |c.body|, c.table, r, flush, 0).bytes);
  }

  lemma OneRecordReadsBack(header: Text, c: Contents, i: Item, b: Text)
    requires Sound(header, c) && Proper(i.record) && Sendable(i.record)
    requires header + WithRecord(c, i.record, i.flush).body <= b
    ensures ReadRecord(b, HEADER_SIZE + |c.body|) ==
            if LosesRoot(c, i.record) then NoRecord
            else RecordRead(Arriving(i).record, i.flush, HEADER_SIZE + |WithRecord(c, i.record, i.flush).body|)
  {
    hide TableOk, WireOf, ReadRecord, NameWire, RootMisencoded, RdataFits, RecordTyped, RecordWellFormed, RecordValid,
         NormalName, TargetReadable, Labels;
    RecordSound(header, c, i.record, i.flush);
    RecordWritable(HEADER_SIZE + |c.body|, c.table, i.record, i.flush);
    NameWritable(HEADER_SIZE + |c.body|, c.table, i.record);
    RecordReadsBack(header + c.body, c.table, i.record, i.flush, 0, b);
  }

  lemma NameWritable(at: nat, table: NameTable, r: Record)
    requires Proper(r)
    ensures NameWire(at, table, r.key.name).Wired?
  {
    hide NameWire;
    NameLength(at, table, r.key.name);
  }

  lemma {:induction false} RecordsReadBack(header: Text, c: Contents, items: seq<Item>, b: Text)
    requires Sound(header, c) && AllSendable(items) && header + WithRecords(c, items).body <= b
    ensures ReadRecords(b, HEADER_SIZE + |c.body|, |items|) ==
            if NoneLost(c, items) then Received(AllArriving(items), HEADER_SIZE + |WithRecords(c, items).body|)
              else Lost
  {
    hide TableOk, ReadRecord, Sound, WithRecord, Sendable, Proper, LosesRoot;
    if items != [] {
      var front, i := items[..|items| - 1], items[|items| - 1];
      var d := WithRecords(c, front);
      RecordsStay(header, c, front);
      RecordSound(header, d, i.record, i.flush);
      FrontBytes(header, d.body, WithRecord(d, i.record, i.flush).body, b);
      RecordsReadBack(header, c, front, b);
      OneRecordReadsBack(header, d, i, b);
    }
  }

  lemma {:induction false} RecordsStay(header: Text, c: Contents, items: seq<Item>)
    requires Sound(header, c) && AllSendable(items)
    ensures Sound(header, WithRecords(c, items)) && c.body <= WithRecords(c, items).body
  {
    hide Sound, WithRecord, Sendable, Proper;
    if items != [] {
      var front, i := items[..|items| - 1], items[|items| - 1];
      RecordsStay(header, c, front);
      RecordSound(header, WithRecords(c, front), i.record, i.flush);
    }
  }

  /** Whatever a packet was filled with arrives: a receiver that reads as many questions and then as many
      records as were put in gets these, in their order. */
  lemma PacketArrives(packet: Text, ks: seq<Key>, items: seq<Item>)
    requires |packet| >= HEADER_SIZE && AllReadable(ks) && AllShort(ks) && AllSendable(items)
    requires packet[HEADER_SIZE..] == WithRecords(WithKeys(NOTHING, ks), items).body
    ensures var c := WithKeys(NOTHING, ks);
            && ReadKeys(packet, HEADER_SIZE, |ks|) == Received(ks, HEADER_SIZE + |c.body|)
            && ReadRecords(packet, HEADER_SIZE + |c.body|, |items|)
               == if NoneLost(c, items) then Received(AllArriving(items), |packet|) else Lost
  {
    hide TableOk, ReadRecord, ReadKey, Sound, WithRecord, WithKey, Sendable, Proper, LosesRoot, Askable, Readable,
         ReadKeys, ReadRecords;
    ReadableAskable(ks);
    var header, c := packet[..HEADER_SIZE], WithKeys(NOTHING, ks);
    assert header + packet[HEADER_SIZE..] == packet;
    KeysStay(header, ks);
    RecordsStay(header, c, items);
    FrontBytes(header, c.body, WithRecords(c, items).body, packet);
    KeysReadBack(header, ks, packet);
    RecordsReadBack(header, c, items, packet);
  }

  lemma {:induction false} KeysStay(header: Text, ks: seq<Key>)
    requires |header| == HEADER_SIZE && AllAskable(ks)
    ensures Sound(header, WithKeys(NOTHING, ks))
  {
    hide Sound, WithKey, Askable;
    if ks == [] {
      SoundNothing(header);
    } else {
      KeysStay(header, ks[..|ks| - 1]);
      KeySound(header, WithKeys(NOTHING, ks[..|ks| - 1]), ks[|ks| - 1]);
    }
  }

  /** Nothing is lost when no record points at the root. */
  lemma {:induction false} NoRootNoneLost(c: Contents, items: seq<Item>)
    requires AllSendable(items)
    requires forall i :: 0 <= i < |items| && (items[i].record.data.Ptr? || items[i].record.data.Srv?) ==>
              items[i].record.data.target != [DOT]
    ensures NoneLost(c, items)
  {
    hide WithRecords, NameWire, Sendable, Proper;
    if items != [] {
      NoRootNoneLost(c, items[..|items| - 1]);
    }
  }
}
