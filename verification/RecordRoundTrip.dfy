/** Reading back what was written: keys and records survive the wire, whatever is in the packet already. */
module RecordRoundTrip {
  import opened Utf8
  import opened Domain
  import opened Wire
  import opened Rr
  import opened RecordWire
  import opened Lists
  import S = StringList

  /** So many labels can always be read, with a pointer before each, in LABELS_MAX steps. */
  const SAFE_LABELS := 63

  ghost predicate EntryBelow(b: Text, table: NameTable, at: nat, n: Text) {
    n in table ==> EntryOk(b, n, table[n]) && table[n] < at
  }

  /** Every entry names labels that start before `at`. */
  ghost predicate TableBelow(b: Text, table: NameTable, at: nat) {
    forall n :: EntryBelow(b, table, at, n)
  }

  lemma TableBelowFrom(b: Text, c: Text, table: NameTable)
    requires TableOk(b, table) && b <= c
    ensures TableBelow(c, table, |b|)
  {
    TableOkExtended(b, c, table);
    forall n
      ensures EntryBelow(c, table, |b|, n)
    {
      assert n in table ==> EntryOk(b, n, table[n]) && EntryOk(c, n, table[n]);
    }
  }

  /** Reading a name where it was written gives its normal form, if that fits the buffer. */
  lemma NameAt(c: Text, at: nat, table: NameTable, name: Text, room: nat)
    requires NoNul(name) && WellFormedName(name) && HEADER_SIZE <= at && |Labels(name)| <= SAFE_LABELS
    requires NameWire(at, table, name).Wired?
    requires at + |NameWire(at, table, name).bytes| <= |c|
    requires c[at..at + |NameWire(at, table, name).bytes|] == NameWire(at, table, name).bytes
    requires TableBelow(c, table, at)
    ensures ReadName(c, at, room) ==
            if |NormalForm(name)| >= room then NoName
            else NameRead(NormalForm(name), at + if Misencoded(table, name) then 1
              else |NameWire(at, table, name).bytes|)
  {
    hide NameWire, ReadLabels, NameExtent, LabelsOf, Join, Misencoded;
    forall n
      ensures EntryUsable(c, table, name, at, n)
    {
      assert EntryBelow(c, table, at, n);
    }
    NameReadsBack(c, at, table, name);
    ReadLabelsMore(c, at, StepsFor(name) + 1, LABELS_MAX);
  }

  // ---------------------------------------------------------------- keys

  lemma Slices(b: Text, x: Text, y: Text, c: Text)
    requires b + x + y <= c
    ensures c[|b|..|b| + |x|] == x && c[|b| + |x|..|b| + |x| + |y|] == y
    ensures b <= c && b + x <= c
  {
    var s := b + x + y;
    assert c[|b|..|b| + |x|] == s[|b|..|b| + |x|];
    assert c[|b| + |x|..|b| + |x| + |y|] == s[|b| + |x|..|b| + |x| + |y|];
    assert c[..|b|] == s[..|b|];
    assert c[..|b| + |x|] == s[..|b| + |x|];
  }

  lemma NormalNameNotDot(name: Text)
    requires NormalName(name)
    ensures name != [DOT]
  {
    if name == [DOT] {
      RootLabels();
    }
  }

  /** A key that was appended to a packet is read back from there exactly when its name fits the
      buffer that names of keys are read into. */
  lemma KeyReadsBack(b: Text, table: NameTable, k: Key, unicast: bool, c: Text)
    requires HEADER_SIZE <= |b| && TableOk(b, table)
    requires KeyTyped(k) && NormalName(k.name) && k.clazz < FLAG_BIT && |Labels(k.name)| <= SAFE_LABELS
    requires KeyWire(|b|, table, k, unicast).Wired? && b + KeyWire(|b|, table, k, unicast).bytes <= c
    ensures ReadKey(c, |b|) ==
            if |k.name| >= 256 then NoKey
            else KeyRead(k, unicast, |b| + |KeyWire(|b|, table, k, unicast).bytes|)
  {
    hide ReadName, NameWire, NormalForm, TableBelow, TableOk, U16At;
    var clazz := if unicast then WithFlag(k.clazz) else k.clazz;
    var i := |b| + |NameWire(|b|, table, k.name).bytes|;
    KeyPlaced(b, table, k, unicast, c);
    NameAt(c, |b|, table, k.name, KEY_NAME_MAX);
    NormalNameNotDot(k.name);
    U16PairReads(c, i, k.kind, clazz);
  }

  lemma KeyPlaced(b: Text, table: NameTable, k: Key, unicast: bool, c: Text)
    requires TableOk(b, table) && KeyTyped(k)
    requires KeyWire(|b|, table, k, unicast).Wired? && b + KeyWire(|b|, table, k, unicast).bytes <= c
    ensures NameWire(|b|, table, k.name).Wired? && TableBelow(c, table, |b|)
    ensures var i := |b| + |NameWire(|b|, table, k.name).bytes|;
            && i + 4 == |b| + |KeyWire(|b|, table, k, unicast).bytes| <= |c|
            && c[|b|..i] == NameWire(|b|, table, k.name).bytes
            && c[i..i + 4] == U16(k.kind) + U16(if unicast then WithFlag(k.clazz) else k.clazz)
  {
    var n := NameWire(|b|, table, k.name);
    var more := U16(k.kind) + U16(if unicast then WithFlag(k.clazz) else k.clazz);
    ConcatAssociative(b, n.bytes, more);
    Slices(b, n.bytes, more, c);
    TableBelowFrom(b, c, table);
  }

  lemma U16PairReads(c: Text, i: nat, v: nat, w: nat)
    requires v < 0x10000 && w < 0x10000 && i + 4 <= |c| && c[i..i + 4] == U16(v) + U16(w)
    ensures U16At(c, i) == v && U16At(c, i + 2) == w
  {
    var s := c[i..i + 4];
    assert c[i..i + 2] == s[..2] == U16(v) && c[i + 2..i + 4] == s[2..4] == U16(w);
    U16Reads(c, i, v);
    U16Reads(c, i + 2, w);
  }

  // ---------------------------------------------------------------- record data

  /** Names in record data are kept as they were given; on the wire only their labels travel. */
  function NormalData(d: Rdata): Rdata
    requires d.Ptr? || d.Srv? ==> WellFormedName(d.target)
  {
    match d
    case Ptr(target) => Ptr(NormalForm(target))
    case Srv(p, w, port, target) => Srv(p, w, port, NormalForm(target))
    case _ => d
  }

  /** A name in record data that can be read again: few enough labels, and short enough when normalised. */
  predicate TargetReadable(d: Rdata) {
    d.Ptr? || d.Srv? ==>
      WellFormedName(d.target) && |Labels(d.target)| <= SAFE_LABELS && |NormalForm(d.target)| < DOMAIN_NAME_MAX
  }

  /** The record data names the root by "." where that is written as two end bytes. */
  predicate RootMisencoded(table: NameTable, d: Rdata) {
    (d.Ptr? || d.Srv?) && Misencoded(table, d.target)
  }

  /** A piece of the wire that starts at a known place. */
  ghost predicate WrittenAt(c: Text, at: nat, bytes: Text) {
    at + |bytes| <= |c| && c[at..at + |bytes|] == bytes
  }

  lemma WrittenParts(c: Text, at: nat, x: Text, y: Text)
    requires WrittenAt(c, at, x + y)
    ensures WrittenAt(c, at, x) && WrittenAt(c, at + |x|, y)
  {
    var s := c[at..at + |x + y|];
    assert c[at..at + |x|] == s[..|x|];
    assert c[at + |x|..at + |x| + |y|] == s[|x|..];
  }

  lemma TableBelowLater(c: Text, table: NameTable, at: nat, later: nat)
    requires TableBelow(c, table, at) && at <= later
    ensures TableBelow(c, table, later)
  {
    forall n
      ensures EntryBelow(c, table, later, n)
    {
      assert EntryBelow(c, table, at, n);
    }
  }

  lemma SrvReadsBack(c: Text, at: nat, table: NameTable, target: Text, len: nat)
    requires NoNul(target) && HEADER_SIZE <= at && at + len <= |c| && at + 6 <= |c| && TableBelow(c, table, at)
    requires TargetReadable(Ptr(target)) && NameWire(at + 6, table, target).Wired?
    requires WrittenAt(c, at + 6, NameWire(at + 6, table, target).bytes)
    ensures ReadRdata(c, at, TYPE_SRV, len) ==
            RdataRead(Srv(U16At(c, at), U16At(c, at + 2), U16At(c, at + 4), NormalForm(target)),
                      at + 6 + |NameWire(at + 6, table, target).bytes| - if Misencoded(table, target) then 1 else 0)
  {
    hide TableBelow, NormalForm, NameWire, ReadLabels, NameExtent, U16At;
    TableBelowLater(c, table, at, at + 6);
    NameAt(c, at + 6, table, target, DOMAIN_NAME_MAX);
    if Misencoded(table, target) {
      MisencodedLength(at + 6, table, target);
    }
  }

  lemma SrvNumbersRead(c: Text, at: nat, p: nat, w: nat, port: nat, name: Text)
    requires p < 0x10000 && w < 0x10000 && port < 0x10000
    requires WrittenAt(c, at, U16(p) + U16(w) + U16(port) + name)
    ensures WrittenAt(c, at + 6, name)
    ensures U16At(c, at) == p && U16At(c, at + 2) == w && U16At(c, at + 4) == port
  {
    WrittenParts(c, at, U16(p) + U16(w) + U16(port), name);
    WrittenParts(c, at, U16(p) + U16(w), U16(port));
    U16PairReads(c, at, p, w);
    U16Reads(c, at + 4, port);
  }

  lemma PtrReadsBack(c: Text, at: nat, table: NameTable, d: Rdata, kind: nat, len: nat)
    requires d.Ptr? && NoNul(d.target) && (kind == TYPE_PTR || kind == TYPE_CNAME || kind == TYPE_NS)
    requires HEADER_SIZE <= at && at + len <= |c| && TableBelow(c, table, at) && TargetReadable(d)
    requires NameWire(at, table, d.target).Wired? && WrittenAt(c, at, NameWire(at, table, d.target).bytes)
    ensures ReadRdata(c, at, kind, len) ==
            RdataRead(NormalData(d), at + |NameWire(at, table, d.target).bytes| - if RootMisencoded(table, d) then 1
              else 0)
  {
    NameAt(c, at, table, d.target, DOMAIN_NAME_MAX);
    if Misencoded(table, d.target) {
      MisencodedLength(at, table, d.target);
    }
  }

  lemma HinfoReadsBack(c: Text, at: nat, cpu: Text, os: Text, len: nat)
    requires NoNul(cpu) && NoNul(os) && |cpu| <= 255 && |os| <= 255 && at + len <= |c|
    requires WrittenAt(c, at, StringBytes(cpu) + StringBytes(os))
    ensures ReadRdata(c, at, TYPE_HINFO, len) == RdataRead(Hinfo(cpu, os), at + |StringBytes(cpu)| + |StringBytes(os)|)
  {
    hide StringBytes, ReadString, WrittenAt;
    WrittenParts(c, at, StringBytes(cpu), StringBytes(os));
    StringReadsBack(c, at, cpu);
    StringReadsBack(c, at + |StringBytes(cpu)|, os);
  }

  lemma MisencodedLength(at: nat, table: NameTable, name: Text)
    requires Misencoded(table, name)
    ensures NameWire(at, table, name).Wired? && |NameWire(at, table, name).bytes| == 2
  {
    RootLabels();
    NameWireStep(at, table, name, [], []);
  }

  lemma StringReadsBack(c: Text, at: nat, s: Text)
    requires NoNul(s) && |s| <= 255 && WrittenAt(c, at, StringBytes(s))
    ensures ReadString(c, at) == NameRead(s, at + |StringBytes(s)|)
  {
    assert s[..|s|] == s;
    WrittenParts(c, at, [|s|], s);
    assert c[at] == c[at..at + 1][0];
  }

  lemma TxtReadsBack(c: Text, at: nat, strings: seq<Text>, len: nat)
    requires forall i :: 0 <= i < |strings| ==> S.Fits(strings[i])
    requires len == |S.Encode(Reversed(strings))| && WrittenAt(c, at, S.Encode(Reversed(strings)))
    ensures ReadRdata(c, at, TYPE_TXT, len) == RdataRead(Txt(strings), at + len)
  {
    hide S.Encode, S.Decode, S.Clean, Reversed;
    var wire := Reversed(strings);
    forall i | 0 <= i < |wire|
      ensures S.Fits(wire[i])
    {
      ReversedAt(strings, i);
    }
    S.DecodeEncode(wire);
    S.CleanUnchanged(wire);
    ReversedTwice(strings);
  }

  /** Record data of every type is read back; the root written as "." comes out one byte short. */
  lemma RdataReadsBack(c: Text, at: nat, table: NameTable, r: Record, len: nat)
    requires RecordTyped(r) && RecordValid(r) && HEADER_SIZE <= at && TableBelow(c, table, at) && TargetReadable(r.data)
    requires RdataWire(at, table, r.data).Wired? && WrittenAt(c, at, RdataWire(at, table, r.data).bytes)
    requires len == |RdataWire(at, table, r.data).bytes|
    ensures ReadRdata(c, at, r.key.kind, len) ==
            RdataRead(NormalData(r.data), at + len - if RootMisencoded(table, r.data) then 1 else 0)
  {
    match r.data {
      case Ptr(_) =>
        PtrReadsBack(c, at, table, r.data, r.key.kind, len);
      case Srv(p, w, port, target) =>
        SrvNumbersRead(c, at, p, w, port, NameWire(at + 6, table, target).bytes);
        SrvReadsBack(c, at, table, target, len);
      case Hinfo(cpu, os) =>
        HinfoReadsBack(c, at, cpu, os, len);
      case Txt(strings) =>
        TxtReadsBack(c, at, strings, len);
      case A(_) =>
      case Aaaa(_) =>
      case Generic(_) =>
    }
  }

  // ---------------------------------------------------------------- records

  function NormalRecord(r: Record): Record
    requires r.data.Ptr? || r.data.Srv? ==> WellFormedName(r.data.target)
  {
    r.(data := NormalData(r.data))
  }

  /** What the wire can carry: the class leaves room for the flag, and the names have few enough labels
      and fit the buffers. */
  predicate Sendable(r: Record) {
    && RecordTyped(r) && RecordValid(r) && NormalName(r.key.name) && |Labels(r.key.name)| <= SAFE_LABELS
    && r.key.clazz < FLAG_BIT && TargetReadable(r.data)
  }

  lemma FixedReads(c: Text, i: nat, kind: nat, clazz: nat, ttl: nat, len: nat)
    requires kind < 0x10000 && clazz < 0x10000 && ttl < 0x1_0000_0000 && len < 0x10000
    requires WrittenAt(c, i, U16(kind) + U16(clazz) + U32(ttl) + U16(len))
    ensures U16At(c, i) == kind && U16At(c, i + 2) == clazz && U32At(c, i + 4) == ttl && U16At(c, i + 8) == len
  {
    WrittenParts(c, i, U16(kind) + U16(clazz) + U32(ttl), U16(len));
    WrittenParts(c, i, U16(kind) + U16(clazz), U32(ttl));
    WrittenParts(c, i, U16(kind), U16(clazz));
    U16Reads(c, i, kind);
    U16Reads(c, i + 2, clazz);
    U32Reads(c, i + 4, ttl);
    U16Reads(c, i + 8, len);
  }

  lemma PrefixWritten(b: Text, w: Text, c: Text)
    requires b + w <= c
    ensures WrittenAt(c, |b|, w) && b <= c
  {
    assert c[|b|..|b| + |w|] == (b + w)[|b|..];
    assert c[..|b|] == (b + w)[..|b|];
  }

  /** Where the parts of a record are. */
  lemma PartsPlaced(b: Text, c: Text, x: Text, y: Text, z: Text)
    requires b + (x + y + z) <= c
    ensures WrittenAt(c, |b|, x) && WrittenAt(c, |b| + |x|, y) && WrittenAt(c, |b| + |x| + |y|, z)
    ensures b <= c && b + x <= c
  {
    PrefixWritten(b, x + y + z, c);
    WrittenParts(c, |b|, x + y, z);
    WrittenParts(c, |b|, x, y);
    assert c[..|b + x|] == b + x;
  }

  /** What can be pointed at from the name of a record and from its data. */
  lemma TablesOfRecord(b: Text, table: NameTable, name: Text, c: Text)
    requires HEADER_SIZE <= |b| && TableOk(b, table) && NoNul(name) && WellFormedName(name)
    requires NameWire(|b|, table, name).Wired? && b <= c && b + NameWire(|b|, table, name).bytes <= c
    ensures TableBelow(c, table, |b|)
    ensures TableBelow(c, NameWire(|b|, table, name).table, |b| + |NameWire(|b|, table, name).bytes|)
  {
    hide TableBelow, TableOk, NameWire, ReadsAs;
    TableBelowFrom(b, c, table);
    NameAppended(b, table, name);
    TableBelowFrom(b + NameWire(|b|, table, name).bytes, c, NameWire(|b|, table, name).table);
  }

  lemma RdataWritable(at: nat, table: NameTable, r: Record)
    requires Sendable(r)
    ensures RdataWire(at, table, r.data).Wired?
  {
    match r.data {
      case Ptr(target) => NameLength(at, table, target);
      case Srv(_, _, _, target) => NameLength(at + 6, table, target);
      case Hinfo(_, _) =>
      case Txt(_) =>
      case A(_) =>
      case Aaaa(_) =>
      case Generic(_) =>
    }
  }

  /** The parts that a record is read from: its name up to i, the fixed fields, and data of `len` bytes. */
  ghost predicate PartsRead(c: Text, at: nat, i: nat, key: Key, ttl: nat, flush: bool, len: nat, d: Rdata, next: nat) {
    && i + 10 + len <= |c| && ReadName(c, at, DOMAIN_NAME_MAX) == NameRead(key.name, i)
    && U16At(c, i) == key.kind && U32At(c, i + 4) == ttl && U16At(c, i + 8) == len
    && U16At(c, i + 2) == (if flush then WithFlag(key.clazz) else WithoutFlag(key.clazz))
    && ReadRdata(c, i + 10, key.kind, len) == RdataRead(d, next)
  }

  /** Putting the parts of a record together again. */
  lemma ReadParts(c: Text, at: nat, i: nat, key: Key, ttl: nat, flush: bool, len: nat, d: Rdata, next: nat)
    requires PartsRead(c, at, i, key, ttl, flush, len, d, next)
    ensures ReadRecord(c, at) ==
            RecordOf(key.name, key.kind, if flush then WithFlag(key.clazz) else WithoutFlag(key.clazz), ttl, d,
                     next == i + 10 + len, next)
  {
    hide ReadName, ReadLabels, U16At, U32At, ReadRdata, RecordOf, S.Decode, CString, NormalForm, RecordValid;
  }

  lemma PartsMake(key: Key, ttl: nat, flush: bool, d: Rdata, exact: bool, next: nat)
    requires |key.name| < DOMAIN_NAME_MAX && NormalName(key.name) && key.clazz < FLAG_BIT
    requires RecordValid(Record(key, ttl, d))
    ensures RecordOf(key.name, key.kind, if flush then WithFlag(key.clazz)
            else WithoutFlag(key.clazz), ttl, d, exact, next)
         == if exact then RecordRead(Record(key, if ttl == 0xFFFF_FFFF then 4500 else ttl, d), flush, next)
            else NoRecord
  {
  }

  /** The name and the fixed fields of a record. */
  lemma HeadReads(c: Text, at: nat, table: NameTable, name: Text, kind: nat, clazz: nat, ttl: nat, len: nat, n: Wired,
                  i: nat)
    requires HEADER_SIZE <= at && NoNul(name) && |name| < DOMAIN_NAME_MAX
    requires NormalName(name) && |Labels(name)| <= SAFE_LABELS
    requires kind < 0x10000 && clazz < 0x10000 && ttl < 0x1_0000_0000 && len < 0x10000
    requires n.Wired? && n == NameWire(at, table, name) && i == at + |n.bytes|
    requires WrittenAt(c, at, n.bytes) && WrittenAt(c, i, U16(kind) + U16(clazz) + U32(ttl) + U16(len))
    requires TableBelow(c, table, at)
    ensures i + 10 <= |c| && ReadName(c, at, DOMAIN_NAME_MAX) == NameRead(name, i)
    ensures U16At(c, i) == kind && U16At(c, i + 2) == clazz && U32At(c, i + 4) == ttl && U16At(c, i + 8) == len
  {
    NormalNameNotDot(name);
    NameAt(c, at, table, name, DOMAIN_NAME_MAX);
    FixedReads(c, i, kind, clazz, ttl, len);
  }

  lemma DataReads(c: Text, i: nat, r: Record, n: Wired, d: Wired)
    requires HEADER_SIZE <= i && Sendable(r) && n.Wired? && d.Wired?
    requires d == RdataWire(i + 10, n.table, r.data) && WrittenAt(c, i + 10, d.bytes) && TableBelow(c, n.table, i)
    ensures i + 10 + |d.bytes| <= |c|
    ensures ReadRdata(c, i + 10, r.key.kind, |d.bytes|) ==
            RdataRead(NormalData(r.data), i + 10 + |d.bytes| - if RootMisencoded(n.table, r.data) then 1 else 0)
  {
    TableBelowLater(c, n.table, i, i + 10);
    RdataReadsBack(c, i + 10, n.table, r, |d.bytes|);
  }

  /** Where the parts of a record that follows b are. */
  lemma RecordPlaced(b: Text, table: NameTable, r: Record, flush: bool, maxTtl: nat, c: Text, n: Wired, i: nat,
                     d: Wired, w: Wired)
    requires Sendable(r) && RdataFits(|b|, table, r) && maxTtl < 0x1_0000_0000
    requires w == WireOf(|b|, table, r, flush, maxTtl)
    requires n == NameWire(|b|, table, r.key.name) && n.Wired? && i == |b| + |n.bytes|
    requires d == RdataWire(i + 10, n.table, r.data) && d.Wired? && (w.Wired? ==> b + w.bytes <= c)
    ensures w.Wired? && |b| + |w.bytes| == i + 10 + |d.bytes| && |d.bytes| < 0x10000 && b <= c && b + n.bytes <= c
    ensures WrittenAt(c, |b|, n.bytes) && WrittenAt(c, i + 10, d.bytes)
    ensures WrittenAt(c, i, Fixed(r, flush, maxTtl) + U16(|d.bytes|))
  {
    hide RecordTyped, RecordValid, NormalName, TargetReadable, NameWire, RdataWire, U16, U32;
    PartsPlaced(b, c, n.bytes, Fixed(r, flush, maxTtl) + U16(|d.bytes|), d.bytes);
  }

  /** The record round trip. A record that was appended to a packet, whatever the packet holds before
      and after it, is read back with equal key, data and cache flush bit exactly when its data does not
      name the root by "." with nothing to point at. Its TTL is the one it has, or the maximal TTL if there
      is one and it is lower; a TTL of 2^32 - 1 comes back as 75 minutes. */
  lemma RecordReadsBack(b: Text, table: NameTable, r: Record, flush: bool, maxTtl: nat, c: Text)
    requires HEADER_SIZE <= |b| && TableOk(b, table) && Sendable(r) && RdataFits(|b|, table, r)
    requires maxTtl < 0x1_0000_0000
    requires WireOf(|b|, table, r, flush, maxTtl).Wired? ==> b + WireOf(|b|, table, r, flush, maxTtl).bytes <= c
    ensures WireOf(|b|, table, r, flush, maxTtl).Wired?
    ensures var ttl := if maxTtl == 0 || r.ttl <= maxTtl then r.ttl else maxTtl;
            ReadRecord(c, |b|) ==
            if RootMisencoded(NameWire(|b|, table, r.key.name).table, r.data) then NoRecord
            else RecordRead(NormalRecord(r).(ttl := if ttl == 0xFFFF_FFFF then 4500 else ttl), flush,
                            |b| + |WireOf(|b|, table, r, flush, maxTtl).bytes|)
  {
    hide ReadRecord, PartsRead, NameWire, RdataWire, TableOk, TargetReadable, NormalForm, U16, U32, NormalData,
         Misencoded, Labels, NoNul, WellFormedName, NormalName;
    var ttl := if maxTtl == 0 || r.ttl <= maxTtl then r.ttl else maxTtl;
    NameLength(|b|, table, r.key.name);
    var n := NameWire(|b|, table, r.key.name);
    var i := |b| + |n.bytes|;
    RdataWritable(i + 10, n.table, r);
    var d := RdataWire(i + 10, n.table, r.data);
    RecordPlaced(b, table, r, flush, maxTtl, c, n, i, d, WireOf(|b|, table, r, flush, maxTtl));
    PlacedReads(b, table, r, flush, ttl, c, n, i, d);
    ReadFromParts(c, |b|, i, r, ttl, flush, |d.bytes|,
                  i + 10 + |d.bytes| - if RootMisencoded(n.table, r.data) then 1 else 0);
  }

  /** What is read where the parts of a record are. */
  lemma PlacedReads(b: Text, table: NameTable, r: Record, flush: bool, ttl: nat, c: Text, n: Wired, i: nat, d: Wired)
    requires HEADER_SIZE <= |b| && TableOk(b, table) && Sendable(r) && ttl < 0x1_0000_0000
    requires n.Wired? && b <= c && b + n.bytes <= c
    requires n == NameWire(|b|, table, r.key.name) && i == |b| + |n.bytes|
    requires d == RdataWire(i + 10, n.table, r.data) && d.Wired? && |d.bytes| < 0x10000
    requires WrittenAt(c, |b|, n.bytes) && WrittenAt(c, i + 10, d.bytes)
    requires WrittenAt(c, i, U16(r.key.kind) + U16(FlaggedClass(r, flush)) + U32(ttl) + U16(|d.bytes|))
    ensures PartsRead(c, |b|, i, r.key, ttl, flush, |d.bytes|, NormalData(r.data),
                      i + 10 + |d.bytes| - if RootMisencoded(n.table, r.data) then 1 else 0)
  {
    hide ReadName, ReadLabels, ReadRdata, NameWire, RdataWire, TableOk, TableBelow, TargetReadable,
         NormalForm, U16, U32, NormalData, Misencoded, Labels, StepsFor, NoNul, WellFormedName;
    TablesOfRecord(b, table, r.key.name, c);
    HeadReads(c, |b|, table, r.key.name, r.key.kind, FlaggedClass(r, flush), ttl, |d.bytes|, n, i);
    DataReads(c, i, r, n, d);
  }

  lemma ReadFromParts(c: Text, at: nat, i: nat, r: Record, ttl: nat, flush: bool, len: nat, next: nat)
    requires Sendable(r) && ttl < 0x1_0000_0000
    requires PartsRead(c, at, i, r.key, ttl, flush, len, NormalData(r.data), next)
    ensures ReadRecord(c, at) ==
            if next == i + 10 + len
            then RecordRead(NormalRecord(r).(ttl := if ttl == 0xFFFF_FFFF then 4500 else ttl), flush, next)
            else NoRecord
  {
    hide PartsRead, ReadRecord, RecordOf, NormalData, NormalForm, WithFlag, WithoutFlag;
    NormalRecordValid(r.(ttl := ttl));
    ReadParts(c, at, i, r.key, ttl, flush, len, NormalData(r.data), next);
    PartsMake(r.key, ttl, flush, NormalData(r.data), next == i + 10 + len, next);
  }

  lemma NormalRecordValid(r: Record)
    requires Sendable(r)
    ensures RecordValid(NormalRecord(r))
    ensures r.data.Ptr? || r.data.Srv? ==> NoNul(NormalForm(r.data.target))
  {
    if r.data.Ptr? || r.data.Srv? {
      NormalFormLabels(r.data.target);
      JoinNoNul(Labels(r.data.target));
    }
  }

  /** What is read back is the same record as far as avahi_record_equal_no_ttl can tell. */
  lemma NormalRecordEqual(r: Record)
    requires Sendable(r)
    ensures RecordWellFormed(r) && RecordWellFormed(NormalRecord(r))
    ensures RecordClassOf(NormalRecord(r)) == RecordClassOf(r)
  {
    NormalRecordValid(r);
    if r.data.Ptr? || r.data.Srv? {
      NormalFormLabels(r.data.target);
    }
  }

  // ---------------------------------------------------------------- the compression table

  lemma DataKeepsTable(b: Text, table: NameTable, d: Rdata)
    requires HEADER_SIZE <= |b| && TableOk(b, table)
    requires d.Srv? ==> d.priority < 0x10000 && d.weight < 0x10000 && d.port < 0x10000
    requires d.Ptr? || d.Srv? ==> NoNul(d.target) && WellFormedName(d.target)
    ensures RdataWire(|b|, table, d).Wired? ==>
              TableOk(b + RdataWire(|b|, table, d).bytes, RdataWire(|b|, table, d).table)
  {
    hide TableOk, NameWire, U16;
    if RdataWire(|b|, table, d).Wired? {
      var w := RdataWire(|b|, table, d);
      if d.Ptr? {
        NameAppended(b, table, d.target);
      } else if d.Srv? {
        var numbers := U16(d.priority) + U16(d.weight) + U16(d.port);
        TableOkExtended(b, b + numbers, table);
        NameAppended(b + numbers, table, d.target);
        ConcatAssociative(b, numbers, NameWire(|b| + 6, table, d.target).bytes);
      } else {
        TableOkExtended(b, b + w.bytes, table);
      }
    }
  }

  /** Appending a record keeps every entry of the compression table pointing at bytes that read as its name. */
  lemma RecordKeepsTable(b: Text, table: NameTable, r: Record, flush: bool, maxTtl: nat)
    requires HEADER_SIZE <= |b| && TableOk(b, table) && RecordTyped(r) && RecordWellFormed(r) && maxTtl < 0x1_0000_0000
    requires RdataFits(|b|, table, r)
    ensures var w := WireOf(|b|, table, r, flush, maxTtl); w.Wired? ==> TableOk(b + w.bytes, w.table)
  {
    hide TableOk, NameWire, U16, U32, RdataWire, DataOfType;
    var w := WireOf(|b|, table, r, flush, maxTtl);
    if w.Wired? {
      var n := NameWire(|b|, table, r.key.name);
      var fixed := Fixed(r, flush, maxTtl) + U16(|RdataOf(|b|, table, r).bytes|);
      var head := b + n.bytes + fixed;
      NameAppended(b, table, r.key.name);
      TableOkExtended(b + n.bytes, head, n.table);
      DataKeepsTable(head, n.table, r.data);
      ConcatAssociative(b, n.bytes, fixed);
      ConcatAssociative(b, n.bytes + fixed, RdataOf(|b|, table, r).bytes);
    }
  }

  lemma KeyKeepsTable(b: Text, table: NameTable, k: Key, unicast: bool)
    requires HEADER_SIZE <= |b| && TableOk(b, table) && KeyTyped(k) && WellFormedName(k.name)
    ensures var w := KeyWire(|b|, table, k, unicast); w.Wired? ==> TableOk(b + w.bytes, w.table)
  {
    hide TableOk, NameWire, U16;
    var w := KeyWire(|b|, table, k, unicast);
    if w.Wired? {
      var n := NameWire(|b|, table, k.name);
      var more := U16(k.kind) + U16(if unicast then WithFlag(k.clazz) else k.clazz);
      NameAppended(b, table, k.name);
      TableOkExtended(b + n.bytes, b + n.bytes + more, n.table);
      ConcatAssociative(b, n.bytes, more);
    }
  }

  /** A pointer record to the root, "." in text, does not survive: its data is written as two end bytes,
      of which only one is read. */
  lemma RootTargetLost(b: Text, c: Text, name: Text)
    requires |b| == HEADER_SIZE && NoNul(name) && NameOk(name) && NormalName(name) && |Labels(name)| <= SAFE_LABELS
    requires var r := Record(Key(name, 1, TYPE_PTR), 120, Ptr([DOT]));
             && RdataFits(|b|, map[], r) && WireOf(|b|, map[], r, false, 0).Wired?
             && b + WireOf(|b|, map[], r, false, 0).bytes <= c
    ensures RecordValid(Record(Key(name, 1, TYPE_PTR), 120, Ptr([DOT])))
    ensures ReadRecord(c, |b|) == NoRecord
  {
    hide ReadRecord, WireOf, NameWire, ReadLabels;
    RootLabels();
    var r := Record(Key(name, 1, TYPE_PTR), 120, Ptr([DOT]));
    assert Sendable(r);
    NormalNameNotDot(name);
    NameLength(|b|, map[], name);
    RootNotEntered(|b|, map[], name);
    RecordReadsBack(b, map[], r, false, 0, c);
  }

  lemma {:induction false} RootNotEntered(at: nat, table: NameTable, name: Text)
    requires WellFormedName(name) && name != [DOT] && [DOT] !in table && NameWire(at, table, name).Wired?
    ensures [DOT] !in NameWire(at, table, name).table
    decreases |name|
  {
    hide LabelsOf, Labels, Unescape;
    if name != [] && !Compressible(table, name) {
      FirstLabel(name);
      var c := Unescape(name).value;
      if c.rest == [DOT] {
        if c.text == [] {
          OnlyDotIsEmpty(name);
        } else {
          RestDotIllFormed(name);
        }
      }
      NameWireStep(at, table, name, c.text, c.rest);
      RootNotEntered(at + 1 + |c.text|, Enter(table, name, at), c.rest);
    }
  }

  /** Names lie behind the header: its fields can change. */
  lemma {:induction false} HeaderUnread(b: Text, c: Text, idx: nat, fuel: nat)
    requires |b| == |c| && HEADER_SIZE <= idx && forall i :: HEADER_SIZE <= i < |b| ==> b[i] == c[i]
    ensures ReadLabels(b, idx, fuel) == ReadLabels(c, idx, fuel)
    decreases fuel
  {
    if fuel > 0 && idx < |b| {
      var n: int := b[idx];
      assert c[idx] == b[idx];
      if 0 < n < 64 && idx + 1 + n <= |b| {
        HeaderUnread(b, c, idx + 1 + n, fuel - 1);
        assert b[idx + 1..idx + 1 + n] == c[idx + 1..idx + 1 + n];
      } else if n >= 0xC0 && idx + 2 <= |b| {
        var target := (n - 0xC0) * 256 + b[idx + 1];
        if HEADER_SIZE <= target < idx {
          HeaderUnread(b, c, target, fuel - 1);
        }
      }
    }
  }

  lemma HeaderKeepsTable(b: Text, c: Text, table: NameTable)
    requires TableOk(b, table) && |b| == |c| && forall i :: HEADER_SIZE <= i < |b| ==> b[i] == c[i]
    ensures TableOk(c, table)
  {
    hide ReadLabels, LabelsOf, Labels;
    forall name | name in table
      ensures EntryOk(c, name, table[name])
    {
      assert EntryOk(b, name, table[name]);
      HeaderUnread(b, c, table[name], StepsFor(name));
    }
  }

  // ---------------------------------------------------------------- a key that is not read

  /** A label of letters, as long as a label can be. */
  predicate Letters(l: Text) {
    |l| == LABEL_MAX - 1 && forall i :: 0 <= i < |l| ==> 97 <= l[i] <= 122
  }

  function Repeated(l: Text, n: nat): (ls: seq<Text>)
    ensures |ls| == n
  {
    seq(n, _ => l)
  }

  function LongName(l: Text, n: nat): Text {
    Join(Repeated(l, n))
  }

  lemma LettersUnchanged(l: Text)
    requires forall i :: 0 <= i < |l| ==> 97 <= l[i] <= 122
    ensures Escape(l) == l && NoNul(l)
  {
    EscapeUnchanged(l);
  }

  lemma {:induction false} JoinLength(ls: seq<Text>)
    requires ls != [] && forall i :: 0 <= i < |ls| ==> |Escape(ls[i])| == LABEL_MAX - 1
    ensures |Join(ls)| == LABEL_MAX * |ls| - 1
  {
    hide Escape;
    if |ls| > 1 {
      JoinLength(ls[1..]);
    }
  }

  lemma RepeatedOk(l: Text, n: nat)
    requires Letters(l) && n > 0
    ensures |LongName(l, n)| == LABEL_MAX * n - 1 && NoNul(LongName(l, n))
    ensures NormalName(LongName(l, n)) && |Labels(LongName(l, n))| == n
  {
    hide WellFormed, Escape, NormalName, Labels, NoNul;
    LettersUnchanged(l);
    AsciiWellFormed(l);
    LetterProper(l);
    JoinLength(Repeated(l, n));
    JoinedOk(Repeated(l, n));
  }

  lemma LetterProper(l: Text)
    requires Letters(l) && WellFormed(l)
    ensures ProperLabel(l)
  {
  }

  lemma JoinedOk(ls: seq<Text>)
    requires ls != [] && ProperLabels(ls)
    ensures NormalName(Join(ls)) && NoNul(Join(ls)) && Labels(Join(ls)) == ls
  {
    hide LabelsOf;
    LabelsOfJoin(ls);
    JoinNoNul(ls);
    var t := Join(ls);
    assert LabelsOf(t) == Some(ls) && ls[0] != [];
    assert Labels(t) == ls;
  }

  lemma KeyWired(at: nat, table: NameTable, k: Key, unicast: bool)
    requires KeyTyped(k) && WellFormedName(k.name)
    ensures KeyWire(at, table, k, unicast).Wired?
  {
    hide NameWire, U16;
    NameLength(at, table, k.name);
  }

  /** A name of 256 bytes or more from such labels, at most 63 of them: its key can be written but not read. Up to 1013
      bytes, which is fifteen labels, the name is valid. */
  lemma LongKeyUnread(b: Text, table: NameTable, l: Text, n: nat, k: Key, unicast: bool, c: Text)
    requires HEADER_SIZE <= |b| && TableOk(b, table) && Letters(l) && 5 <= n <= SAFE_LABELS
    requires k.name == LongName(l, n) && k.kind < 0x10000 && k.clazz < FLAG_BIT
    ensures NameOk(k.name) <==> n <= 15
    ensures KeyTyped(k) && NormalName(k.name) && KeyWire(|b|, table, k, unicast).Wired?
    ensures b + KeyWire(|b|, table, k, unicast).bytes <= c ==> ReadKey(c, |b|) == NoKey
  {
    hide KeyWire, ReadKey, TableOk, WellFormedName, NoNul, Labels, NormalForm, Letters, LongName;
    RepeatedOk(l, n);
    KeyWired(|b|, table, k, unicast);
    if b + KeyWire(|b|, table, k, unicast).bytes <= c {
      KeyReadsBack(b, table, k, unicast, c);
    }
  }
}
