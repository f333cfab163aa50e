/** What a packet holds behind its header, told by the questions and records that were put into it. */
module PacketContents {
  import opened Utf8
  import opened Domain
  import opened Wire
  import opened Rr
  import opened RecordWire
  import opened RecordRoundTrip
  import opened DnsPacket

  /** The bytes behind the header, and the names that can be pointed at. */
  datatype Contents = Contents(body: Text, table: NameTable)

  const NOTHING := Contents([], map[])

  /** The answer or authority records of a packet, with their cache flush bits. */
  datatype Item = Item(record: Record, flush: bool)

  predicate Askable(k: Key) {
    KeyTyped(k) && WellFormedName(k.name)
  }

  function WithKey(c: Contents, k: Key, unicast: bool): Contents
    requires Askable(k)
  {
    var w := KeyWire(HEADER_SIZE + |c.body|, c.table, k, unicast);
    if w.Wired? then Contents(c.body + w.bytes, w.table) else c
  }

  function WithRecord(c: Contents, r: Record, flush: bool): Contents
    requires Proper(r)
  {
    ProperFits(HEADER_SIZE + |c.body|, c.table, r);
    var w := WireOf(HEADER_SIZE + |c.body|, c.table, r, flush, 0);
    if w.Wired? then Contents(c.body + w.bytes, w.table) else c
  }

  function WithKeys(c: Contents, ks: seq<Key>): Contents
    requires forall i :: 0 <= i < |ks| ==> Askable(ks[i])
  {
    if ks == [] then c else WithKey(WithKeys(c, ks[..|ks| - 1]), ks[|ks| - 1], false)
  }

  function WithRecords(c: Contents, rs: seq<Item>): Contents
    requires forall i :: 0 <= i < |rs| ==> Proper(rs[i].record)
  {
    if rs == [] then c else WithRecord(WithRecords(c, rs[..|rs| - 1]), rs[|rs| - 1].record, rs[|rs| - 1].flush)
  }

  /** The record fits into a packet of its own. */
  predicate FitsAlone(r: Record, flush: bool, capacity: nat)
    requires Proper(r)
  {
    HEADER_SIZE + |WithRecord(NOTHING, r, flush).body| <= capacity
  }

  ghost predicate Carries(p: Packet, c: Contents)
    reads p`size, p`nameTable, p.data
  {
    p.Valid() && HEADER_SIZE <= p.size && p.data[HEADER_SIZE..p.size] == c.body && p.nameTable == c.table
  }

  method EmptyQuery(mtu: nat) returns (p: Packet)
    ensures fresh(p) && fresh(p.data) && Carries(p, NOTHING) && p.data.Length == Capacity(mtu)
    ensures p.size == HEADER_SIZE && p.resSize == 0 && forall i :: 0 <= i < 6 ==> p.Field(i) == 0
  {
    hide TableOk, Packet.Field;
    p := Packet.NewQuery(mtu);
    assert p.data[HEADER_SIZE..p.size] == [];
  }

  /** The key is in the packet, or the packet is as before because there is no room. */
  method AddKey(p: Packet, k: Key, unicast: bool, ghost c: Contents) returns (ok: bool)
    requires Carries(p, c) && Askable(k)
    modifies p`size, p`nameTable, p.data
    ensures ok == (HEADER_SIZE + |WithKey(c, k, unicast).body| <= p.data.Length)
    ensures Carries(p, if ok then WithKey(c, k, unicast) else c)
    ensures forall i :: 0 <= i < 6 ==> p.Field(i) == old(p.Field(i))
  {
    hide KeyWire, TableInside;
    ghost var v := p.View();
    assert v == p.data[..HEADER_SIZE] + c.body;
    assert forall i :: 0 <= i < 6 ==> p.Field(i) == U16At(v, 2 * i);
    ok := p.AppendKey(k, unicast);
    KeyWritable(HEADER_SIZE + |c.body|, c.table, k, unicast);
    Behind(v, KeyWire(HEADER_SIZE + |c.body|, c.table, k, unicast).bytes);
    assert p.data[HEADER_SIZE..p.size] == p.View()[HEADER_SIZE..];
    SameHeader(v, p.View());
    assert forall i :: 0 <= i < 6 ==> p.Field(i) == U16At(p.View(), 2 * i);
  }

  method AddRecord(p: Packet, r: Record, flush: bool, ghost c: Contents) returns (ok: bool)
    requires Carries(p, c) && Proper(r)
    modifies p`size, p`nameTable, p.data
    ensures ok == (HEADER_SIZE + |WithRecord(c, r, flush).body| <= p.data.Length)
    ensures Carries(p, if ok then WithRecord(c, r, flush) else c)
    ensures forall i :: 0 <= i < 6 ==> p.Field(i) == old(p.Field(i))
  {
    hide WireOf, TableInside, RecordValid, RdataFits, RecordTyped;
    ghost var v := p.View();
    assert v == p.data[..HEADER_SIZE] + c.body;
    assert forall i :: 0 <= i < 6 ==> p.Field(i) == U16At(v, 2 * i);
    ProperFits(HEADER_SIZE + |c.body|, c.table, r);
    ok := p.AppendRecord(r, flush, 0);
    RecordWritable(HEADER_SIZE + |c.body|, c.table, r, flush);
    Behind(v, WireOf(HEADER_SIZE + |c.body|, c.table, r, flush, 0).bytes);
    assert p.data[HEADER_SIZE..p.size] == p.View()[HEADER_SIZE..];
    SameHeader(v, p.View());
    assert forall i :: 0 <= i < 6 ==> p.Field(i) == U16At(p.View(), 2 * i);
  }

  /** A field of the header is set; what is behind the header stays. */
  method SetCount(p: Packet, i: nat, v: nat, ghost c: Contents)
    requires Carries(p, c) && i < 6 && v < 0x10000
    modifies p.data
    ensures Carries(p, c) && p.Field(i) == v && forall j :: 0 <= j < 6 && j != i ==> p.Field(j) == old(p.Field(j))
  {
    hide TableInside, TableOk;
    p.SetField(i, v);
    assert p.data[HEADER_SIZE..p.size] == p.data[HEADER_SIZE..][..p.size - HEADER_SIZE];
    assert old(p.data[HEADER_SIZE..p.size]) == old(p.data[HEADER_SIZE..])[..p.size - HEADER_SIZE];
  }

  lemma CarriesHeader(p: Packet, c: Contents)
    requires Carries(p, c)
    ensures HEADER_SIZE <= p.data.Length
  {
  }

  /** The bytes of a packet, as they are handed to an interface. */
  method BytesOf(p: Packet, ghost c: Contents) returns (packet: Text)
    requires Carries(p, c)
    ensures |packet| >= HEADER_SIZE && packet[HEADER_SIZE..] == c.body
    ensures forall i :: 0 <= i < 6 ==> U16At(packet, 2 * i) == p.Field(i)
  {
    hide TableInside, U16At;
    packet := p.data[..p.size];
    assert packet[HEADER_SIZE..] == p.data[HEADER_SIZE..p.size];
    assert packet[..HEADER_SIZE] == p.data[..][..HEADER_SIZE];
    SameHeader(packet[..HEADER_SIZE], packet);
    SameHeader(packet[..HEADER_SIZE], p.data[..]);
  }

  lemma SameHeader(v: Text, w: Text)
    requires HEADER_SIZE <= |v| <= |w| && v[..HEADER_SIZE] == w[..HEADER_SIZE]
    ensures forall i :: 0 <= i < 6 ==> U16At(v, 2 * i) == U16At(w, 2 * i)
  {
    forall i | 0 <= i < 6
      ensures U16At(v, 2 * i) == U16At(w, 2 * i)
    {
      assert v[2 * i] == v[..HEADER_SIZE][2 * i] && v[2 * i + 1] == v[..HEADER_SIZE][2 * i + 1];
    }
  }

  lemma Behind(v: Text, w: Text)
    requires HEADER_SIZE <= |v|
    ensures (v + w)[HEADER_SIZE..] == v[HEADER_SIZE..] + w && (v + w)[..HEADER_SIZE] == v[..HEADER_SIZE]
  {
  }

  /** Keys and proper records can always be written; they take at least 5 and 11 bytes. */
  lemma KeyWritable(at: nat, table: NameTable, k: Key, unicast: bool)
    requires Askable(k)
    ensures KeyWire(at, table, k, unicast).Wired? && 5 <= |KeyWire(at, table, k, unicast).bytes| <= |k.name| + 6
  {
    hide NameWire, U16;
    NameLength(at, table, k.name);
  }

  lemma RecordWritable(at: nat, table: NameTable, r: Record, flush: bool)
    requires Proper(r)
    ensures RdataFits(at, table, r)
    ensures WireOf(at, table, r, flush, 0).Wired? && |WireOf(at, table, r, flush, 0).bytes| >= 11
  {
    hide NameWire, U16, U32, RecordTyped;
    ProperFits(at, table, r);
    NameLength(at, table, r.key.name);
    var n := NameWire(at, table, r.key.name);
    DataWritable(at + |n.bytes| + 10, n.table, r);
  }

  lemma DataWritable(at: nat, table: NameTable, r: Record)
    requires Proper(r)
    ensures RdataWire(at, table, r.data).Wired?
  {
    hide NameWire, U16;
    if r.data.Ptr? {
      NameLength(at, table, r.data.target);
    } else if r.data.Srv? {
      NameLength(at + 6, table, r.data.target);
    }
  }

  // ---------------------------------------------------------------- questions and records without flush bits

  function Unflagged(rs: seq<Record>): (items: seq<Item>)
    ensures |items| == |rs| && forall i :: 0 <= i < |rs| ==> items[i] == Item(rs[i], false)
  {
    seq(|rs|, i requires 0 <= i < |rs| => Item(rs[i], false))
  }

  ghost predicate AllProper(rs: seq<Record>) {
    forall i :: 0 <= i < |rs| ==> Proper(rs[i])
  }

  ghost predicate AllAskable(ks: seq<Key>) {
    forall i :: 0 <= i < |ks| ==> Askable(ks[i])
  }

  /** One more answer in a packet. */
  lemma OneMoreAnswer(c: Contents, rs: seq<Record>, r: Record)
    requires AllProper(rs) && Proper(r)
    ensures AllProper(rs + [r])
    ensures WithRecords(c, Unflagged(rs + [r])) == WithRecord(WithRecords(c, Unflagged(rs)), r, false)
  {
    hide Proper, WithRecord;
    assert Unflagged(rs + [r])[..|rs|] == Unflagged(rs);
  }

  lemma OneMoreKey(ks: seq<Key>, k: Key)
    requires AllAskable(ks) && Askable(k)
    ensures AllAskable(ks + [k]) && WithKeys(NOTHING, ks + [k]) == WithKey(WithKeys(NOTHING, ks), k, false)
  {
    hide Askable, WithKey;
    assert (ks + [k])[..|ks|] == ks;
  }

  /** What a packet with these questions and answers holds. */
  ghost function Holding(ks: seq<Key>, rs: seq<Record>): Contents
    requires AllAskable(ks) && AllProper(rs)
  {
    WithRecords(WithKeys(NOTHING, ks), Unflagged(rs))
  }

  lemma {:induction false} KeysGrow(ks: seq<Key>)
    requires AllAskable(ks)
    ensures |WithKeys(NOTHING, ks).body| >= 5 * |ks|
  {
    hide KeyWire, Askable;
    if ks != [] {
      var front := ks[..|ks| - 1];
      KeysGrow(front);
      var c := WithKeys(NOTHING, front);
      KeyWritable(HEADER_SIZE + |c.body|, c.table, ks[|ks| - 1], false);
    }
  }

  lemma {:induction false} RecordsGrow(c: Contents, rs: seq<Record>)
    requires AllProper(rs)
    ensures |WithRecords(c, Unflagged(rs)).body| >= |c.body| + 11 * |rs|
  {
    hide WireOf, Proper;
    if rs != [] {
      var front, r := rs[..|rs| - 1], rs[|rs| - 1];
      RecordsGrow(c, front);
      assert front + [r] == rs;
      OneMoreAnswer(c, front, r);
      var d := WithRecords(c, Unflagged(front));
      RecordWritable(HEADER_SIZE + |d.body|, d.table, r, false);
    }
  }

  /** A packet without a byte behind its header has nothing in it. */
  lemma EmptyHolding(ks: seq<Key>, rs: seq<Record>)
    requires AllAskable(ks) && AllProper(rs) && Holding(ks, rs).body == []
    ensures ks == [] && rs == [] && Holding(ks, rs) == NOTHING
  {
    hide WithRecord, WithKey, Proper, Askable;
    KeysGrow(ks);
    RecordsGrow(WithKeys(NOTHING, ks), rs);
  }

  lemma NothingMore(c: Contents)
    ensures AllProper([]) && WithRecords(c, Unflagged([])) == c
  {
  }

  lemma NothingHolding()
    ensures Holding([], []) == NOTHING && AllAskable([]) && AllProper([])
  {
  }
}
