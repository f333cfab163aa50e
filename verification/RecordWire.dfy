/** The wire form of keys and resource records, avahi-core/dns.c. */
module RecordWire {
  import opened Utf8
  import opened Domain
  import opened Wire
  import opened Rr
  import opened Lists
  import S = StringList

  const RDATA_MAX := 0xFFFF
  const TTL_NONE := 0xFFFF_FFFF
  /** The size of the buffer that the name of a key is read into. */
  const KEY_NAME_MAX := 256

  function U16(v: nat): (t: Text)
    requires v < 0x10000
    ensures |t| == 2
  {
    [v / 256, v % 256]
  }

  function U32(v: nat): (t: Text)
    requires v < 0x1_0000_0000
    ensures |t| == 4
  {
    [v / 0x1000000, v / 0x10000 % 256, v / 256 % 256, v % 256]
  }

  function Value(b: Text, i: nat): (v: int)
    requires i < |b|
    ensures 0 <= v < 256
  {
    b[i]
  }

  function U16At(b: Text, i: nat): (v: nat)
    requires i + 2 <= |b|
    ensures v < 0x10000
  {
    Value(b, i) * 256 + Value(b, i + 1)
  }

  function U32At(b: Text, i: nat): (v: nat)
    requires i + 4 <= |b|
    ensures v < 0x1_0000_0000
  {
    Value(b, i) * 0x1000000 + Value(b, i + 1) * 0x10000 + Value(b, i + 2) * 256 + Value(b, i + 3)
  }

  lemma U16Reads(b: Text, i: nat, v: nat)
    requires v < 0x10000 && i + 2 <= |b| && b[i..i + 2] == U16(v)
    ensures U16At(b, i) == v
  {
    assert b[i] == b[i..i + 2][0] && b[i + 1] == b[i..i + 2][1];
  }

  lemma U32Digits(v: nat)
    ensures v / 0x1000000 * 0x1000000 + v / 0x10000 % 256 * 0x10000 + v / 256 % 256 * 256 + v % 256 == v
  {
    var q := v / 256;
    var q2 := q / 256;
    assert q2 == v / 0x10000;
    assert q2 / 256 == v / 0x1000000;
  }

  lemma U32Reads(b: Text, i: nat, v: nat)
    requires v < 0x1_0000_0000 && i + 4 <= |b| && b[i..i + 4] == U32(v)
    ensures U32At(b, i) == v
  {
    var s := b[i..i + 4];
    assert b[i] == s[0] && b[i + 1] == s[1] && b[i + 2] == s[2] && b[i + 3] == s[3];
    U32Digits(v);
  }

  function WithFlag(c: nat): nat {
    if c >= FLAG_BIT then c else c + FLAG_BIT
  }

  function WithoutFlag(c: nat): nat {
    if c >= FLAG_BIT then c - FLAG_BIT else c
  }

  // ---------------------------------------------------------------- writing

  function WireThen(w: Wired, more: Text): Wired {
    if w.Wired? then Wired(w.bytes + more, w.table) else w
  }

  function KeyWire(at: nat, table: NameTable, k: Key, unicast: bool): Wired
    requires KeyTyped(k)
  {
    WireThen(NameWire(at, table, k.name), U16(k.kind) + U16(if unicast then WithFlag(k.clazz) else k.clazz))
  }

  /** avahi_dns_packet_append_string */
  function StringBytes(s: Text): Text {
    var k := if |s| > 255 then 255 else |s|;
    [k] + s[..k]
  }

  function RdataWire(at: nat, table: NameTable, d: Rdata): Wired
    requires d.Srv? ==> d.priority < 0x10000 && d.weight < 0x10000 && d.port < 0x10000
  {
    match d
    case Ptr(target) => NameWire(at, table, target)
    case Srv(p, w, port, target) => WiredAfter(U16(p) + U16(w) + U16(port), NameWire(at + 6, table, target))
    case Hinfo(cpu, os) => Wired(StringBytes(cpu) + StringBytes(os), table)
    case Txt(strings) => Wired(S.Encode(Reversed(strings)), table)
    case A(address) => Wired(address, table)
    case Aaaa(address) => Wired(address, table)
    case Generic(data) => Wired(data, table)
  }

  function TtlWritten(ttl: nat, maxTtl: nat): nat {
    if maxTtl > 0 && ttl > maxTtl then maxTtl else ttl
  }

  /** The class as it is written: the top bit is the cache flush bit. */
  function FlaggedClass(r: Record, flush: bool): nat {
    if flush then WithFlag(r.key.clazz) else WithoutFlag(r.key.clazz)
  }

  /** Type, class and TTL, which follow the name. */
  function Fixed(r: Record, flush: bool, maxTtl: nat): (t: Text)
    requires RecordTyped(r)
    ensures |t| == 8
  {
    U16(r.key.kind) + U16(FlaggedClass(r, flush)) +
    U32(TtlWritten(r.ttl, maxTtl))
  }

  /** The record data, in the place it has after the name, the fixed fields and its length. */
  function RdataOf(at: nat, table: NameTable, r: Record): Wired
    requires RecordTyped(r)
  {
    var n := NameWire(at, table, r.key.name);
    if n.Unwritable? then n else RdataWire(at + |n.bytes| + 10, n.table, r.data)
  }

  /** The source asserts that record data is not longer than its length field can say. */
  predicate RdataFits(at: nat, table: NameTable, r: Record)
    requires RecordTyped(r)
  {
    RdataOf(at, table, r).Wired? ==> |RdataOf(at, table, r).bytes| <= RDATA_MAX
  }

  function WireOf(at: nat, table: NameTable, r: Record, flush: bool, maxTtl: nat): Wired
    requires RecordTyped(r) && RdataFits(at, table, r)
  {
    var n := NameWire(at, table, r.key.name);
    var d := RdataOf(at, table, r);
    if d.Unwritable? then d
    else Wired(n.bytes + (Fixed(r, flush, maxTtl) + U16(|d.bytes|)) + d.bytes, d.table)
  }

  // ---------------------------------------------------------------- reading

  datatype NameRead = NoName | NameRead(text: Text, next: nat)

  /** A name read into a buffer of `room` bytes. */
  function ReadName(b: Text, idx: nat, room: nat): NameRead {
    var ls := ReadLabels(b, idx, LABELS_MAX);
    if ls.None? || |Join(ls.value)| >= room then NoName
    else NameRead(Join(ls.value), idx + NameExtent(b, idx, LABELS_MAX))
  }

  lemma {:induction false} ReadLabelsSizes(b: Text, idx: nat, fuel: nat)
    requires ReadLabels(b, idx, fuel).Some?
    ensures forall i :: 0 <= i < |ReadLabels(b, idx, fuel).value| ==>
            0 < |ReadLabels(b, idx, fuel).value[i]| < LABEL_MAX
    decreases fuel
  {
    var n: int := b[idx];
    if 0 < n < 64 {
      ReadLabelsSizes(b, idx + 1 + n, fuel - 1);
    } else if n >= 0xC0 {
      ReadLabelsSizes(b, (n - 0xC0) * 256 + b[idx + 1], fuel - 1);
    }
  }

  /** Names that are read are C strings, and in normal form when they are well formed at all. */
  lemma ReadNameNormal(b: Text, idx: nat, room: nat)
    requires ReadName(b, idx, room).NameRead?
    ensures NoNul(ReadName(b, idx, room).text) && |ReadName(b, idx, room).text| < room
    ensures WellFormedName(ReadName(b, idx, room).text) ==> NormalName(ReadName(b, idx, room).text)
    ensures |Join(Readable(ReadName(b, idx, room).text))| < room
  {
    hide ReadLabels, NameExtent, Readable;
    var ls := ReadLabels(b, idx, LABELS_MAX).value;
    JoinNoNul(ls);
    ReadLabelsSizes(b, idx, LABELS_MAX);
    ReadableOfJoin(ls);
    if WellFormedName(Join(ls)) {
      ReadableJoin(ls);
      LabelsOfJoin(ls);
    }
  }

  /** A name is read in at most 127 steps; the last of them is its end. */
  lemma StepsLimited(b: Text, idx: nat, room: nat)
    requires ReadName(b, idx, room).NameRead?
    ensures ReadLabels(b, idx, 127).Some? && |ReadLabels(b, idx, 127).value| < 127
    ensures ReadName(b, idx, room).text == Join(ReadLabels(b, idx, 127).value)
  {
    hide ReadLabels, NameExtent, Join;
    LabelsTakeSteps(b, idx, LABELS_MAX);
  }

  /** avahi_dns_packet_consume_string into a buffer that holds any string. */
  function ReadString(b: Text, idx: nat): NameRead {
    if idx >= |b| || idx + 1 + Value(b, idx) > |b| then NoName
    else NameRead(CString(b[idx + 1..idx + 1 + Value(b, idx)]), idx + 1 + Value(b, idx))
  }

  /** avahi_dns_packet_consume_key at idx. */
  datatype KeyRead = NoKey | KeyRead(key: Key, unicast: bool, next: nat)

  function ReadKey(b: Text, idx: nat): KeyRead {
    var n := ReadName(b, idx, KEY_NAME_MAX);
    if n.NoName? || n.next + 4 > |b| then NoKey
    else if !WellFormedName(n.text) then NoKey
    else
      var clazz := U16At(b, n.next + 2);
      KeyRead(Key(NormalForm(n.text), WithoutFlag(clazz), U16At(b, n.next)), clazz >= FLAG_BIT, n.next + 4)
  }

  datatype RdataRead = NoRdata | RdataRead(data: Rdata, next: nat)

  /** What parse_rdata reads by type, before it compares lengths. */
  function ReadRdata(b: Text, idx: nat, kind: nat, len: nat): RdataRead
    requires idx + len <= |b|
  {
    if kind == TYPE_PTR || kind == TYPE_CNAME || kind == TYPE_NS then
      var n := ReadName(b, idx, DOMAIN_NAME_MAX);
      if n.NoName? then NoRdata else RdataRead(Ptr(n.text), n.next)
    else if kind == TYPE_SRV then
      if idx + 6 > |b| then NoRdata
      else
        var n := ReadName(b, idx + 6, DOMAIN_NAME_MAX);
        if n.NoName? then NoRdata
        else RdataRead(Srv(U16At(b, idx), U16At(b, idx + 2), U16At(b, idx + 4), n.text), n.next)
    else if kind == TYPE_HINFO then
      var cpu := ReadString(b, idx);
      if cpu.NoName? then NoRdata
      else
        var os := ReadString(b, cpu.next);
        if os.NoName? then NoRdata else RdataRead(Hinfo(cpu.text, os.text), os.next)
    else if kind == TYPE_TXT then
      var p := S.Decode(b[idx..idx + len]);
      if p.Overflow? then NoRdata else RdataRead(Txt(Reversed(p.ts)), idx + len)
    else if kind == TYPE_A then
      if idx + 4 > |b| then NoRdata else RdataRead(A(b[idx..idx + 4]), idx + 4)
    else if kind == TYPE_AAAA then
      if idx + 16 > |b| then NoRdata else RdataRead(Aaaa(b[idx..idx + 16]), idx + 16)
    else
      RdataRead(Generic(b[idx..idx + len]), idx + len)
  }

  /** Data that was read has the type of the record and values in the range of its fields. */
  lemma ReadRdataTyped(b: Text, idx: nat, kind: nat, len: nat, key: Key, ttl: nat)
    requires idx + len <= |b| && len < 0x10000 && ReadRdata(b, idx, kind, len).RdataRead?
    requires KeyTyped(key) && key.kind == kind && ttl < 0x1_0000_0000
    ensures RecordTyped(Record(key, ttl, ReadRdata(b, idx, kind, len).data))
  {
    hide ReadName, S.Decode, U16At, U32At, NoNul;
    if kind == TYPE_PTR || kind == TYPE_CNAME || kind == TYPE_NS {
      ReadNameNormal(b, idx, DOMAIN_NAME_MAX);
    } else if kind == TYPE_SRV {
      ReadNameNormal(b, idx + 6, DOMAIN_NAME_MAX);
    }
  }

  datatype RecordRead = NoRecord | RecordRead(record: Record, flush: bool, next: nat)

  /** The record that was read, if its names are well formed and its data has the length it claims. */
  function RecordOf(name: Text, kind: nat, clazz: nat, ttl: nat, d: Rdata, exact: bool, next: nat): RecordRead {
    if !exact || !WellFormedName(name) then NoRecord
    else
      var r := Record(Key(NormalForm(name), WithoutFlag(clazz), kind), if ttl == TTL_NONE then DEFAULT_TTL else ttl, d);
      if RecordValid(r) then RecordRead(r, clazz >= FLAG_BIT, next) else NoRecord
  }

  /** avahi_dns_packet_consume_record at idx. */
  function ReadRecord(b: Text, idx: nat): RecordRead {
    var n := ReadName(b, idx, DOMAIN_NAME_MAX);
    if n.NoName? || n.next + 10 > |b| || n.next + 10 + U16At(b, n.next + 8) > |b| then NoRecord
    else
      var kind, clazz, ttl, len := U16At(b, n.next), U16At(b, n.next + 2), U32At(b, n.next + 4), U16At(b, n.next + 8);
      var d := ReadRdata(b, n.next + 10, kind, len);
      if d.NoRdata? then NoRecord
      else RecordOf(n.text, kind, clazz, ttl, d.data, d.next == n.next + 10 + len, d.next)
  }

  // ---------------------------------------------------------------- records fit their length field

  /** A valid record whose data is not longer than its length field can say. */
  predicate Proper(r: Record) {
    && RecordTyped(r) && RecordWellFormed(r) && RecordValid(r)
    && (r.data.Txt? ==> |S.Encode(Reversed(r.data.strings))| <= RDATA_MAX)
  }

  /** Wherever a proper record is written, its data fits. */
  lemma ProperFits(at: nat, table: NameTable, r: Record)
    requires Proper(r)
    ensures RdataFits(at, table, r)
  {
    hide S.Encode, NameWire, WellFormedName;
    var n := NameWire(at, table, r.key.name);
    if n.Wired? {
      if r.data.Ptr? {
        NameLength(at + |n.bytes| + 10, n.table, r.data.target);
      } else if r.data.Srv? {
        NameLength(at + |n.bytes| + 16, n.table, r.data.target);
      }
    }
  }

  lemma {:induction false} DecodedShort(data: Text)
    requires S.Decode(data).Strings?
    ensures |S.Body(S.Decode(data).ts)| <= |data|
    decreases |data|
  {
    if data != [] {
      var k: int := data[0];
      DecodedShort(data[1 + k..]);
    }
  }

  /** Records that are read from a packet are proper. */
  lemma ReadRecordProper(b: Text, idx: nat)
    requires ReadRecord(b, idx).RecordRead?
    ensures Proper(ReadRecord(b, idx).record)
  {
    hide ReadName, U16At, U32At, RecordValid, RecordTyped, NormalForm, S.Decode, WellFormedName, ReadString, S.Encode;
    var n := ReadName(b, idx, DOMAIN_NAME_MAX);
    ReadNameNormal(b, idx, DOMAIN_NAME_MAX);
    var r := ReadRecord(b, idx).record;
    var len := U16At(b, n.next + 8);
    ReadRdataTyped(b, n.next + 10, r.key.kind, len, r.key, r.ttl);
    ValidWellFormed(r);
    if r.data.Txt? {
      var data := b[n.next + 10..n.next + 10 + len];
      DecodedShort(data);
      ReversedTwice(S.Decode(data).ts);
      EncodedLength(S.Decode(data).ts);
    }
  }

  lemma EncodedLength(ts: seq<Text>)
    ensures |S.Encode(ts)| <= |S.Body(ts)| + 1
    ensures S.Body(ts) != [] ==> |S.Encode(ts)| == |S.Body(ts)|
  {
  }

  lemma ValidWellFormed(r: Record)
    requires RecordTyped(r) && RecordValid(r)
    ensures RecordWellFormed(r)
  {
  }
}
