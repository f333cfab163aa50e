/** The packet of avahi-core/dns.c: a buffer of fixed capacity with a write end, a read position,
    reserved space, and the table of names that can be pointed at. */
module DnsPacket {
  import opened Utf8
  import opened Domain
  import opened Wire
  import opened Rr
  import opened RecordWire
  import opened RecordRoundTrip
  import opened Lists
  import S = StringList

  const EXTRA_SIZE := 48
  const FIELD_FLAGS := 1
  const FIELD_QDCOUNT := 2
  const FIELD_ANCOUNT := 3
  const FIELD_NSCOUNT := 4
  const FLAG_QR := 0x8000
  const FLAG_AA := 0x400
  const FLAG_TC := 0x200
  const PACKET_SIZE_MAX := HEADER_SIZE + 256 + 2 + 2 + 4 + 2 + RDATA_MAX

  // ---------------------------------------------------------------- the name table after a rollback

  /** The entries that start before an offset. */
  function Cleaned(table: NameTable, at: nat): NameTable {
    map n | n in table && table[n] < at :: table[n]
  }

  ghost predicate TableInside(table: NameTable, size: nat) {
    forall n :: n in table ==> table[n] < size
  }

  lemma CleanedEnter(table: NameTable, n: Text, at: nat, saved: nat)
    requires saved <= at
    ensures Cleaned(Enter(table, n, at), saved) == Cleaned(table, saved)
  {
  }

  lemma CleanedTwice(table: NameTable, at: nat, later: nat)
    requires at <= later
    ensures Cleaned(Cleaned(table, later), at) == Cleaned(table, at)
  {
  }

  lemma CleanedNothing(table: NameTable, size: nat)
    requires TableInside(table, size)
    ensures Cleaned(table, size) == table
  {
  }

  /** Writing a name comes to a pointer that does not fit: what was written before it is left behind. */
  predicate StopsAtPointer(at: nat, table: NameTable, name: Text, max: nat)
    decreases |name|
  {
    name != [] &&
    if Compressible(table, name) then at + 2 > max
    else
      var c := Unescape(name);
      && c.Some? && at + 1 + |c.value.text| <= max
      && StopsAtPointer(at + 1 + |c.value.text|, Enter(table, name, at), c.value.rest, max)
  }

  /** `rest` is left of a name whose first bytes are written. */
  ghost predicate Writing(at: nat, table: NameTable, name: Text, max: nat, done: Text, table': NameTable, rest: Text) {
    && NoNul(rest)
    && NameWire(at, table, name) == WiredAfter(done, NameWire(at + |done|, table', rest))
    && (StopsAtPointer(at, table, name, max) <==> StopsAtPointer(at + |done|, table', rest, max))
    && Cleaned(table', at) == Cleaned(table, at)
    && (if done == [] then rest == name && table' == table else !Compressible(table, name))
  }

  lemma WritingStart(at: nat, table: NameTable, name: Text, max: nat)
    requires NoNul(name)
    ensures Writing(at, table, name, max, [], table, name)
  {
    var w := NameWire(at, table, name);
    assert w.Wired? ==> [] + w.bytes == w.bytes;
  }

  lemma WiredAfterTwice(a: Text, b: Text, w: Wired)
    ensures WiredAfter(a, WiredAfter(b, w)) == WiredAfter(a + b, w)
  {
    if w.Wired? {
      ConcatAssociative(a, b, w.bytes);
    }
  }

  lemma WritingLabel(at: nat, table: NameTable, name: Text, max: nat, done: Text, table': NameTable, rest: Text,
                     l: Text, rest': Text)
    requires Writing(at, table, name, max, done, table', rest)
    requires rest != [] && !Compressible(table', rest) && Unescape(rest) == Some(Cut(l, rest'))
    requires |l| < LABEL_MAX && at + |done| + 1 + |l| <= max
    ensures Writing(at, table, name, max, done + LabelBytes(l), Enter(table', rest, at + |done|), rest')
  {
    hide Compressible, Unescape, Cleaned;
    var next := at + |done| + 1 + |l|;
    WiredAfterTwice(done, LabelBytes(l), NameWire(next, Enter(table', rest, at + |done|), rest'));
    NameWireStep(at + |done|, table', rest, l, rest');
    CleanedEnter(table', rest, at + |done|, at);
  }

  lemma LabelAsString(name: Text)
    requires Unescape(name).Some?
    ensures |Unescape(name).value.text| < LABEL_MAX
    ensures StringBytes(Unescape(name).value.text) == LabelBytes(Unescape(name).value.text)
  {
    var l := Unescape(name).value.text;
    assert l[..|l|] == l;
  }

  /** Why writing a name stops. */
  lemma WritingStopped(at: nat, table: NameTable, name: Text, max: nat, done: Text, table': NameTable, rest: Text)
    requires Writing(at, table, name, max, done, table', rest) && at + |done| <= max
    ensures Cleaned(table', at) == Cleaned(table, at)
    ensures (if done == [] then rest == name && table' == table else !Compressible(table, name))
    ensures rest == [] ==>
              !StopsAtPointer(at, table, name, max) && NameWire(at, table, name) == Wired(done + [0], table')
    ensures rest != [] && Compressible(table', rest) ==>
              && NameWire(at, table, name) == Wired(done + Pointer(table'[rest]), table')
              && (StopsAtPointer(at, table, name, max) <==> at + |done| + 2 > max)
    ensures rest != [] && !Compressible(table', rest) && Unescape(rest).None? ==>
              NameWire(at, table, name).Unwritable? && !StopsAtPointer(at, table, name, max)
    ensures rest != [] && !Compressible(table', rest) && Unescape(rest).Some?
            && at + |done| + 1 + |Unescape(rest).value.text| > max ==>
              && (NameWire(at, table, name).Wired? ==> at + |NameWire(at, table, name).bytes| > max)
              && !StopsAtPointer(at, table, name, max)
  {
    hide Unescape, Cleaned;
  }

  // ---------------------------------------------------------------- steps of reading a name

  /** `done` are the labels read so far; reading goes on at idx. */
  ghost predicate ReadingName(b: Text, start: nat, done: seq<Text>, idx: nat, steps: nat, compressed: bool, ret: nat) {
    && steps <= LABELS_MAX
    && ReadLabels(b, start, LABELS_MAX) == GlueLabels(done, ReadLabels(b, idx, LABELS_MAX - steps))
    && NameExtent(b, start, LABELS_MAX) == ret + if compressed then 0 else NameExtent(b, idx, LABELS_MAX - steps)
  }

  lemma ReadingNameStart(b: Text, start: nat)
    ensures ReadingName(b, start, [], start, 0, false, 0) && Join([]) == []
  {
    hide ReadLabels, NameExtent;
    var ls := ReadLabels(b, start, LABELS_MAX);
    assert ls.Some? ==> [] + ls.value == ls.value;
  }

  lemma ReadingNameLabel(b: Text, start: nat, done: seq<Text>, idx: nat, steps: nat, compressed: bool, ret: nat,
                         l: Text)
    requires ReadingName(b, start, done, idx, steps, compressed, ret) && steps < LABELS_MAX
    requires 0 < |l| < LABEL_MAX && idx + 1 + |l| <= |b| && b[idx] == |l| && b[idx + 1..idx + 1 + |l|] == l
    ensures ReadingName(b, start, done + [l], idx + 1 + |l|, steps + 1, compressed, if compressed then ret
            else ret + 1 + |l|)
  {
    GlueLabelsStep(done, l, ReadLabels(b, idx + 1 + |l|, LABELS_MAX - steps - 1));
  }

  lemma ReadingNamePointer(b: Text, start: nat, done: seq<Text>, idx: nat, steps: nat, compressed: bool, ret: nat)
    requires ReadingName(b, start, done, idx, steps, compressed, ret) && steps < LABELS_MAX
    requires idx + 2 <= |b| && b[idx] >= 0xC0
    requires HEADER_SIZE <= (Value(b, idx) - 0xC0) * 256 + Value(b, idx + 1) < idx
    ensures ReadingName(b, start, done, (Value(b, idx) - 0xC0) * 256 + Value(b, idx + 1), steps + 1, true,
                        if compressed then ret else ret + 2)
  {
  }

  lemma ReadingNameEnd(b: Text, start: nat, done: seq<Text>, idx: nat, steps: nat, compressed: bool, ret: nat,
                       room: nat)
    requires ReadingName(b, start, done, idx, steps, compressed, ret) && steps < LABELS_MAX
    requires idx < |b| && b[idx] == 0 && |Join(done)| < room
    ensures ReadName(b, start, room) == NameRead(Join(done), start + if compressed then ret else ret + 1)
  {
    assert done + [] == done;
  }

  /** What makes a name unreadable. */
  predicate Broken(b: Text, idx: nat) {
    || idx >= |b|
    || (0 < Value(b, idx) < 64 && idx + 1 + Value(b, idx) > |b|)
    || 64 <= Value(b, idx) < 0xC0
    || (Value(b, idx) >= 0xC0
      && (idx + 2 > |b| || !(HEADER_SIZE <= (Value(b, idx) - 0xC0) * 256 + Value(b, idx + 1) < idx)))
  }

  lemma ReadingNameBroken(b: Text, start: nat, done: seq<Text>, idx: nat, steps: nat, compressed: bool, ret: nat,
                          room: nat)
    requires ReadingName(b, start, done, idx, steps, compressed, ret)
    requires steps == LABELS_MAX || Broken(b, idx)
    ensures ReadName(b, start, room) == NoName
  {
  }

  /** The text only grows. */
  lemma ReadingNameTooLong(b: Text, start: nat, done: seq<Text>, idx: nat, steps: nat, compressed: bool, ret: nat,
                           room: nat)
    requires ReadingName(b, start, done, idx, steps, compressed, ret) && |Join(done)| >= room
    ensures ReadName(b, start, room) == NoName
  {
    hide NameExtent;
    var rest := ReadLabels(b, idx, LABELS_MAX - steps);
    if rest.Some? {
      JoinGrows(done, rest.value);
    }
  }

  lemma {:induction false} EscapeLength(l: Text)
    ensures |Escape(l)| >= |l|
  {
    if l != [] {
      EscapeLength(l[1..]);
    }
  }

  /** avahi_normalize_name_strdup, for names whose labels fit its buffer. */
  method NewName(name: Text) returns (r: Option<Text>)
    requires NoNul(name) && |Join(Readable(name))| < DOMAIN_NAME_MAX
    ensures r == if WellFormedName(name) then Some(NormalForm(name)) else None
  {
    hide Readable, WellFormedName, Labels, Fill, Join;
    var n := NormalizeName(name, DOMAIN_NAME_MAX);
    FillWhole(Readable(name), DOMAIN_NAME_MAX);
    NormalizedWhole(name, DOMAIN_NAME_MAX);
    if WellFormedName(name) {
      ReadableWhole(name);
    }
    r := if n.Written? then Some(n.text) else None;
  }

  /** What fits into a packet on a link that carries `mtu` bytes. */
  function Capacity(mtu: nat): (n: nat)
    ensures n >= HEADER_SIZE
  {
    if mtu == 0 then PACKET_SIZE_MAX else if mtu < EXTRA_SIZE + HEADER_SIZE then HEADER_SIZE else mtu - EXTRA_SIZE
  }

  // ---------------------------------------------------------------- the packet

  class Packet {
    const data: array<Byte>
    var size: nat
    var rindex: nat
    var resSize: nat
    var nameTable: NameTable

    ghost predicate Valid()
      reads this`size, this`nameTable
    {
      HEADER_SIZE <= data.Length && size <= data.Length && TableInside(nameTable, size)
    }

    ghost function View(): (t: Text)
      requires size <= data.Length
      reads this`size, data
      ensures |t| == size
    {
      data[..size]
    }

    /** Every entry of the name table points, inside the packet, at bytes that read as its name. */
    ghost predicate Sound()
      reads this`size, this`nameTable, data
    {
      Valid() && HEADER_SIZE <= size && TableOk(View(), nameTable)
    }

    /** A rollback to |b| bytes gives b and its table again. */
    ghost predicate Extends(b: Text, table: NameTable)
      reads this, data
    {
      && Valid() && |b| <= size && data[..|b|] == b && Cleaned(nameTable, |b|) == table
    }

    /** avahi_dns_packet_new */
    constructor (mtu: nat)
      ensures Valid() && fresh(data) && size == rindex == HEADER_SIZE && resSize == 0 && nameTable == map[]
      ensures data.Length == Capacity(mtu)
      ensures forall i :: 0 <= i < HEADER_SIZE ==> data[i] == 0
    {
      var maxSize := if mtu == 0 then PACKET_SIZE_MAX else if mtu >= EXTRA_SIZE then mtu - EXTRA_SIZE else 0;
      if maxSize < HEADER_SIZE {
        maxSize := HEADER_SIZE;
      }
      data := new Byte[maxSize](_ => 0);
      size, rindex, resSize, nameTable := HEADER_SIZE, HEADER_SIZE, 0, map[];
    }

    // ---------------------------------------------------------------- room

    method IsEmpty() returns (r: bool)
      ensures r <==> size <= HEADER_SIZE
    {
      return size <= HEADER_SIZE;
    }

    method ReserveSize(n: nat) returns (r: nat)
      requires Valid() && size + resSize <= data.Length
      modifies this`resSize
      ensures resSize == r == old(resSize) + if size + old(resSize) + n <= data.Length then n else 0
      ensures size + resSize <= data.Length
    {
      if size + resSize + n <= data.Length {
        resSize := resSize + n;
      }
      return resSize;
    }

    method ReservedSpace() returns (n: nat)
      requires Valid() && size + resSize <= data.Length
      ensures size + resSize + n == data.Length
    {
      return data.Length - size - resSize;
    }

    // ---------------------------------------------------------------- header fields

    /** A field of the header, in network byte order. */
    function Field(i: nat): (v: nat)
      requires i < 6 && HEADER_SIZE <= data.Length
      reads data
      ensures v < 0x10000
    {
      U16At(data[..], 2 * i)
    }

    method SetField(i: nat, v: nat)
      requires i < 6 && v < 0x10000 && HEADER_SIZE <= data.Length
      modifies data
      ensures Field(i) == v && (forall j :: 0 <= j < 6 && j != i ==> Field(j) == old(Field(j)))
      ensures data[HEADER_SIZE..] == old(data[HEADER_SIZE..])
      ensures old(Sound()) ==> Sound()
    {
      hide TableOk;
      data[2 * i], data[2 * i + 1] := v / 256, v % 256;
      if old(Sound()) {
        HeaderKeepsTable(old(View()), View(), nameTable);
      }
    }

    method GetField(i: nat) returns (v: nat)
      requires i < 6 && HEADER_SIZE <= data.Length
      ensures v == Field(i)
    {
      var high: int, low: int := data[2 * i], data[2 * i + 1];
      return high * 256 + low;
    }

    /** A query or response with nothing in it. */
    static method NewQuery(mtu: nat) returns (p: Packet)
      ensures fresh(p) && fresh(p.data) && p.Sound() && p.size == p.rindex == HEADER_SIZE && p.resSize == 0
      ensures p.nameTable == map[] && p.data.Length == Capacity(mtu)
      ensures forall i :: 0 <= i < 6 ==> p.Field(i) == 0
    {
      p := new Packet(mtu);
      p.SetField(FIELD_FLAGS, 0);
    }

    static method NewResponse(mtu: nat, aa: bool) returns (p: Packet)
      ensures fresh(p) && fresh(p.data) && p.Sound() && p.size == p.rindex == HEADER_SIZE && p.resSize == 0
      ensures p.nameTable == map[] && p.data.Length == Capacity(mtu)
      ensures forall i :: 0 <= i < 6 ==> p.Field(i) == if i == FIELD_FLAGS then FLAG_QR + if aa then FLAG_AA else 0
              else 0
    {
      p := new Packet(mtu);
      p.SetField(FIELD_FLAGS, FLAG_QR + if aa then FLAG_AA else 0);
    }

    // ---------------------------------------------------------------- appending

    method Extend(l: nat) returns (at: Option<nat>)
      requires Valid()
      modifies this`size
      ensures Valid()
      ensures if old(size) + l <= data.Length then at == Some(old(size)) && size == old(size) + l
              else at.None? && size == old(size)
    {
      if size + l > data.Length {
        return None;
      }
      at := Some(size);
      size := size + l;
    }

    method Put(at: nat, bytes: Text)
      requires at + |bytes| <= data.Length
      modifies data
      ensures data[..at] == old(data[..at]) && data[at..at + |bytes|] == bytes
      ensures data[at + |bytes|..] == old(data[at + |bytes|..])
    {
      for i := 0 to |bytes|
        invariant forall j :: 0 <= j < data.Length ==> data[j] == if at <= j < at + i then bytes[j - at]
                  else old(data[j])
      {
        data[at + i] := bytes[i];
      }
    }

    method AppendBytes(bytes: Text) returns (ok: bool)
      requires Valid()
      modifies this`size, data
      ensures Valid() && ok == (old(size) + |bytes| <= data.Length)
      ensures View() == if ok then old(View()) + bytes else old(View())
    {
      var at := Extend(|bytes|);
      ok := at.Some?;
      if ok {
        Put(at.value, bytes);
      }
    }

    method AppendUint16(v: nat) returns (ok: bool)
      requires Valid() && v < 0x10000
      modifies this`size, data
      ensures Valid() && ok == (old(size) + 2 <= data.Length)
      ensures View() == if ok then old(View()) + U16(v) else old(View())
    {
      ok := AppendBytes([v / 256, v % 256]);
    }

    method AppendUint32(v: nat) returns (ok: bool)
      requires Valid() && v < 0x1_0000_0000
      modifies this`size, data
      ensures Valid() && ok == (old(size) + 4 <= data.Length)
      ensures View() == if ok then old(View()) + U32(v) else old(View())
    {
      ok := AppendBytes([v / 0x1000000, v / 0x10000 % 256, v / 256 % 256, v % 256]);
    }

    method AppendString(s: Text) returns (ok: bool)
      requires Valid()
      modifies this`size, data
      ensures Valid() && ok == (old(size) + |StringBytes(s)| <= data.Length)
      ensures View() == if ok then old(View()) + StringBytes(s) else old(View())
    {
      var k := |s|;
      if k >= 255 {
        k := 255;
      }
      ok := AppendBytes([k] + s[..k]);
    }

    /** avahi_dns_packet_cleanup_name_table */
    method CleanupNameTable()
      modifies this`nameTable
      ensures nameTable == Cleaned(old(nameTable), size)
    {
      var left := nameTable.Keys;
      ghost var all := nameTable;
      while left != {}
        invariant left <= all.Keys
        invariant nameTable == map n | n in all && (n in left || all[n] < size) :: all[n]
        decreases |left|
      {
        var n :| n in left;
        left := left - {n};
        if nameTable[n] >= size {
          nameTable := nameTable - {n};
        }
      }
    }

    /** Gives up what was written after `saved` bytes. */
    method Rollback(saved: nat)
      requires Valid() && saved <= size
      modifies this`size, this`nameTable
      ensures Valid() && size == saved && nameTable == Cleaned(old(nameTable), saved)
    {
      size := saved;
      CleanupNameTable();
    }

    /** One label of a name and its entry; the rest of the name is returned. */
    method AppendLabel(name: Text) returns (rest: Option<Text>)
      requires Valid() && NoNul(name) && name != []
      modifies this`size, this`nameTable, data
      ensures Valid()
      ensures var c := Unescape(name);
              if c.None? || old(size) + 1 + |c.value.text| > data.Length then
                rest.None? && View() == old(View()) && nameTable == old(nameTable)
              else
                && |c.value.text| < LABEL_MAX && rest == Some(c.value.rest) && NoNul(rest.value)
                  && |rest.value| < |name|
                && View() == old(View()) + LabelBytes(c.value.text)
                  && nameTable == Enter(old(nameTable), name, old(size))
    {
      hide StringBytes, Unescape;
      var c := UnescapeLabel(name);
      if c.None? {
        return None;
      }
      LabelAsString(name);
      var d := size;
      var fits := AppendString(c.value.text);
      if !fits {
        return None;
      }
      if name !in nameTable {
        nameTable := nameTable[name := d];
      }
      rest := Some(c.value.rest);
    }

    /** The first bytes are not touched, and undoing the rest gives the old table again. It is undone
        already, except when a pointer that does not fit comes after a label. */
    method AppendName(name: Text) returns (ok: bool)
      requires Valid() && NoNul(name)
      modifies this`size, this`nameTable, data
      ensures Valid()
      ensures var w := NameWire(old(size), old(nameTable), name);
              && ok == (w.Wired? && old(size) + |w.bytes| <= data.Length)
              && (ok ==> View() == old(View()) + w.bytes && nameTable == w.table)
      ensures Extends(old(View()), old(nameTable))
      ensures !ok ==> (size == old(size) <==>
                       !StopsAtPointer(old(size), old(nameTable), name, data.Length)
                         || Compressible(old(nameTable), name))
    {
      hide NameWire, StopsAtPointer, Writing, Unescape, LabelBytes, Cleaned, Enter;
      ghost var at, table, b, done: Text := size, nameTable, View(), [];
      var saved := size;
      var rest := name;
      WritingStart(at, table, name, data.Length);
      CleanedNothing(table, at);
      while rest != []
        invariant Valid() && View() == b + done && NoNul(rest)
        invariant Writing(at, table, name, data.Length, done, nameTable, rest)
        decreases |rest|
      {
        WritingStopped(at, table, name, data.Length, done, nameTable, rest);
        if rest in nameTable {
          var idx := nameTable[rest];
          if idx < OFFSET_RANGE {
            ConcatAssociative(b, done, Pointer(idx));
            ok := AppendBytes(Pointer(idx));
            return;
          }
        }
        ghost var c, table' := Unescape(rest), nameTable;
        var next := AppendLabel(rest);
        if next.None? {
          Rollback(saved);
          return false;
        }
        WritingLabel(at, table, name, data.Length, done, table', rest, c.value.text, c.value.rest);
        ConcatAssociative(b, done, LabelBytes(c.value.text));
        done := done + LabelBytes(c.value.text);
        rest := next.value;
      }
      WritingStopped(at, table, name, data.Length, done, nameTable, rest);
      ConcatAssociative(b, done, [0]);
      ok := AppendBytes([0]);
      if !ok {
        Rollback(saved);
      }
    }

    /** All or nothing: the whole key, or the packet and its table as before. */
    method AppendKey(k: Key, unicast: bool) returns (ok: bool)
      requires Valid() && KeyTyped(k)
      modifies this`size, this`nameTable, data
      ensures Valid()
      ensures var w := KeyWire(old(size), old(nameTable), k, unicast);
              && ok == (w.Wired? && old(size) + |w.bytes| <= data.Length)
              && View() == (if ok then old(View()) + w.bytes else old(View()))
              && nameTable == (if ok then w.table else old(nameTable))
      ensures old(Sound()) && WellFormedName(k.name) ==> Sound()
    {
      hide NameWire, StopsAtPointer, U16, Compressible, TableOk, WellFormedName;
      if Sound() && WellFormedName(k.name) {
        KeyKeepsTable(View(), nameTable, k, unicast);
      }
      var saved := size;
      ok := AppendName(k.name);
      if ok {
        ghost var n := View()[saved..];
        ok := AppendUint16(k.kind);
        if ok {
          ok := AppendUint16(if unicast then WithFlag(k.clazz) else k.clazz);
          ConcatAssociative(old(View()) + n, U16(k.kind), U16(if unicast then WithFlag(k.clazz) else k.clazz));
          ConcatAssociative(old(View()), n, U16(k.kind) + U16(if unicast then WithFlag(k.clazz) else k.clazz));
        }
      }
      if !ok {
        Rollback(saved);
      }
    }

    method AppendRdata(r: Record) returns (ok: bool)
      requires Valid() && RecordTyped(r)
      modifies this`size, this`nameTable, data
      ensures Valid() && Extends(old(View()), old(nameTable))
      ensures var w := RdataWire(old(size), old(nameTable), r.data);
              && ok == (w.Wired? && old(size) + |w.bytes| <= data.Length)
              && (ok ==> View() == old(View()) + w.bytes && nameTable == w.table)
    {
      hide NameWire, StopsAtPointer, U16, Compressible, StringBytes, S.Encode;
      CleanedNothing(nameTable, size);
      if r.key.kind == TYPE_PTR || r.key.kind == TYPE_CNAME || r.key.kind == TYPE_NS {
        ok := AppendName(r.data.target);
      } else if r.key.kind == TYPE_SRV {
        ok := AppendSrv(r.data.priority, r.data.weight, r.data.port, r.data.target);
      } else if r.key.kind == TYPE_HINFO {
        ok := AppendString(r.data.cpu);
        if ok {
          ConcatAssociative(old(View()), StringBytes(r.data.cpu), StringBytes(r.data.os));
          ok := AppendString(r.data.os);
        }
      } else if r.key.kind == TYPE_TXT {
        ok := AppendBytes(S.Encode(Reversed(r.data.strings)));
      } else if r.key.kind == TYPE_A || r.key.kind == TYPE_AAAA {
        ok := AppendBytes(r.data.address);
      } else {
        ok := true;
        if r.data.data != [] {
          ok := AppendBytes(r.data.data);
        }
      }
    }

    method AppendSrv(priority: nat, weight: nat, port: nat, target: Text) returns (ok: bool)
      requires Valid() && priority < 0x10000 && weight < 0x10000 && port < 0x10000 && NoNul(target)
      modifies this`size, this`nameTable, data
      ensures Valid() && Extends(old(View()), old(nameTable))
      ensures var w := RdataWire(old(size), old(nameTable), Srv(priority, weight, port, target));
              && ok == (w.Wired? && old(size) + |w.bytes| <= data.Length)
              && (ok ==> View() == old(View()) + w.bytes && nameTable == w.table)
    {
      hide NameWire, StopsAtPointer, U16, Compressible;
      CleanedNothing(nameTable, size);
      ghost var b := View();
      ok := AppendUint16(priority);
      if ok {
        ok := AppendUint16(weight);
      }
      if ok {
        ok := AppendUint16(port);
      }
      if ok {
        ghost var n := NameWire(size, nameTable, target);
        ok := AppendName(target);
        ConcatAssociative(b, U16(priority), U16(weight));
        ConcatAssociative(b, U16(priority) + U16(weight), U16(port));
        if n.Wired? {
          ConcatAssociative(b, U16(priority) + U16(weight) + U16(port), n.bytes);
        }
      }
    }

    /** Overwrites bytes inside the packet. */
    method Patch(at: nat, bytes: Text, ghost front: Text, ghost was: Text, ghost back: Text)
      requires Valid() && at == |front| && |was| == |bytes| && View() == front + was + back
      modifies data
      ensures View() == front + bytes + back
    {
      Put(at, bytes);
      assert data[..at] == old(View())[..at] == front;
      assert data[at + |bytes|..size] == old(View())[at + |bytes|..] == back;
      assert View() == data[..at] + data[at..at + |bytes|] + data[at + |bytes|..size];
    }

    /** Type, class, TTL and a length that is not known yet. */
    method AppendFixed(kind: nat, clazz: nat, ttl: nat) returns (ok: bool)
      requires Valid() && kind < 0x10000 && clazz < 0x10000 && ttl < 0x1_0000_0000
      modifies this`size, data
      ensures Valid() && old(size) <= size && data[..old(size)] == old(View())
      ensures ok == (old(size) + 10 <= data.Length)
      ensures ok ==> View() == old(View()) + (U16(kind) + U16(clazz) + U32(ttl)) + U16(0)
    {
      hide U16, U32, TableInside;
      ghost var b := View();
      ConcatAssociative(b, U16(kind), U16(clazz));
      ConcatAssociative(b, U16(kind) + U16(clazz), U32(ttl));
      ok := AppendUint16(kind);
      if !ok {
        return;
      }
      ok := AppendUint16(clazz);
      if !ok {
        return;
      }
      ok := AppendUint32(ttl);
      if !ok {
        return;
      }
      ok := AppendUint16(0);
    }

    /** What follows the name of a record; the length of the data is written last. */
    method AppendAfterName(r: Record, flush: bool, maxTtl: nat) returns (ok: bool)
      requires Valid() && RecordTyped(r) && maxTtl < 0x1_0000_0000
      requires var d := RdataWire(size + 10, nameTable, r.data); d.Wired? ==> |d.bytes| <= RDATA_MAX
      modifies this`size, this`nameTable, data
      ensures Valid() && old(size) <= size && data[..old(size)] == old(View())
      ensures Cleaned(nameTable, old(size)) == Cleaned(old(nameTable), old(size))
      ensures var d := RdataWire(old(size) + 10, old(nameTable), r.data);
              && ok == (d.Wired? && old(size) + 10 + |d.bytes| <= data.Length)
              && (ok ==> nameTable == d.table)
              && (ok ==> View() == old(View()) + Fixed(r, flush, maxTtl) + U16(|d.bytes|) + d.bytes)
    {
      hide NameWire, StopsAtPointer, U16, U32, Compressible, RdataWire, DataOfType, Cleaned;
      ghost var b := View();
      var l := size + 8;
      ok := AppendFixed(r.key.kind, if flush then WithFlag(r.key.clazz) else WithoutFlag(r.key.clazz),
                        if maxTtl > 0 && r.ttl > maxTtl then maxTtl else r.ttl);
      if ok {
        var start := size;
        ghost var d := RdataWire(size, nameTable, r.data);
        ok := AppendRdata(r);
        CleanedTwice(nameTable, old(size), start);
        if ok {
          Patch(l, U16(size - start), b + Fixed(r, flush, maxTtl), U16(0), d.bytes);
        }
      }
    }

    /** All or nothing: the whole record, or the packet and its table as before. */
    method AppendRecord(r: Record, flush: bool, maxTtl: nat) returns (ok: bool)
      requires Valid() && RecordTyped(r) && RdataFits(size, nameTable, r) && maxTtl < 0x1_0000_0000
      modifies this`size, this`nameTable, data
      ensures Valid()
      ensures var w := WireOf(old(size), old(nameTable), r, flush, maxTtl);
              && ok == (w.Wired? && old(size) + |w.bytes| <= data.Length)
              && View() == (if ok then old(View()) + w.bytes else old(View()))
              && nameTable == (if ok then w.table else old(nameTable))
      ensures old(Sound()) && RecordWellFormed(r) ==> Sound()
    {
      hide NameWire, StopsAtPointer, U16, U32, Compressible, RdataWire, DataOfType, Cleaned, TableOk, RecordWellFormed;
      if Sound() && RecordWellFormed(r) {
        RecordKeepsTable(View(), nameTable, r, flush, maxTtl);
      }
      ghost var b, table := View(), nameTable;
      var saved := size;
      ok := AppendName(r.key.name);
      if ok {
        ghost var n := NameWire(saved, table, r.key.name);
        ghost var d := RdataWire(size + 10, n.table, r.data);
        CleanedTwice(nameTable, saved, size);
        ghost var named := size;
        ok := AppendAfterName(r, flush, maxTtl);
        CleanedTwice(nameTable, saved, named);
        if ok {
          RecordTogether(b, n.bytes, Fixed(r, flush, maxTtl), U16(|d.bytes|), d.bytes);
        }
      }
      if !ok {
        Rollback(saved);
        assert View() == b;
      }
    }

    // ---------------------------------------------------------------- consuming

    /** Reads a name at idx into a buffer of `room` bytes. */
    method ConsumeLabels(start: nat, room: nat) returns (r: NameRead)
      requires Valid() && room > 0
      ensures r == ReadName(View(), start, room)
    {
      hide ReadLabels, NameExtent, Escape, ReadName, Join, ReadingName, Fitting;
      ghost var b := View();
      ghost var done: seq<Text> := [];
      var idx: nat, ret: nat, compressed, first := start, 0, false, true;
      var name: Text, l := [], room;
      ReadingNameStart(b, start);
      for i := 0 to LABELS_MAX
        invariant ReadingName(b, start, done, idx, i, compressed, ret)
        invariant name == Join(done) && 0 < l == room - |name| && first == (done == [])
      {
        if idx + 1 > size {
          ReadingNameBroken(b, start, done, idx, i, compressed, ret, room);
          return NoName;
        }
        var n: int := data[idx];
        if n == 0 {
          ReadingNameEnd(b, start, done, idx, i, compressed, ret, room);
          return NameRead(name, start + if compressed then ret else ret + 1);
        } else if n <= 63 {
          if idx + 1 + n > size {
            ReadingNameBroken(b, start, done, idx, i, compressed, ret, room);
            return NoName;
          }
          var part := data[idx + 1..idx + 1 + n];
          ReadingNameLabel(b, start, done, idx, i, compressed, ret, part);
          JoinLabel(done, part);
          done := done + [part];
          if n + 1 > l {
            ReadingNameTooLong(b, start, done, idx + 1 + n, i + 1, compressed, if compressed then ret
              else ret + 1 + n, room);
            return NoName;
          }
          if !first {
            name, l := name + [DOT], l - 1;
          }
          first := false;
          var ok;
          ok, name, l := EscapeLabel(part, name, l);
          if !ok {
            ReadingNameTooLong(b, start, done, idx + 1 + n, i + 1, compressed, if compressed then ret
              else ret + 1 + n, room);
            return NoName;
          }
          idx := idx + 1 + n;
          if !compressed {
            ret := ret + 1 + n;
          }
        } else if n >= 0xC0 {
          if idx + 2 > size {
            ReadingNameBroken(b, start, done, idx, i, compressed, ret, room);
            return NoName;
          }
          var target := (n - 0xC0) * 256 + data[idx + 1];
          if target < HEADER_SIZE || target >= idx {
            ReadingNameBroken(b, start, done, idx, i, compressed, ret, room);
            return NoName;
          }
          ReadingNamePointer(b, start, done, idx, i, compressed, ret);
          idx := target;
          if !compressed {
            ret := ret + 2;
          }
          compressed := true;
        } else {
          ReadingNameBroken(b, start, done, idx, i, compressed, ret, room);
          return NoName;
        }
      }
      ReadingNameBroken(b, start, done, idx, LABELS_MAX, compressed, ret, room);
      r := NoName;
    }

    method ConsumeName(room: nat) returns (r: Option<Text>)
      requires Valid() && room > 0
      modifies this`rindex
      ensures var n := ReadName(View(), old(rindex), room);
              if n.NoName? then r.None? && rindex == old(rindex) else r == Some(n.text) && rindex == n.next
    {
      hide ReadName;
      var n := ConsumeLabels(rindex, room);
      if n.NoName? {
        return None;
      }
      rindex := n.next;
      r := Some(n.text);
    }

    method ConsumeUint16() returns (r: Option<nat>)
      requires Valid()
      modifies this`rindex
      ensures if old(rindex) + 2 > size then r.None? && rindex == old(rindex)
              else r == Some(U16At(View(), old(rindex))) && rindex == old(rindex) + 2
    {
      if rindex + 2 > size {
        return None;
      }
      var high: int, low: int := data[rindex], data[rindex + 1];
      rindex := rindex + 2;
      r := Some(high * 256 + low);
    }

    method ConsumeUint32() returns (r: Option<nat>)
      requires Valid()
      modifies this`rindex
      ensures if old(rindex) + 4 > size then r.None? && rindex == old(rindex)
              else r == Some(U32At(View(), old(rindex))) && rindex == old(rindex) + 4
    {
      if rindex + 4 > size {
        return None;
      }
      var a: int, b: int, c: int, d: int := data[rindex], data[rindex + 1], data[rindex + 2], data[rindex + 3];
      rindex := rindex + 4;
      r := Some(a * 0x1000000 + b * 0x10000 + c * 256 + d);
    }

    method ConsumeBytes(l: nat) returns (r: Option<Text>)
      requires Valid()
      modifies this`rindex
      ensures if old(rindex) + l > size then r.None? && rindex == old(rindex)
              else r == Some(View()[old(rindex)..old(rindex) + l]) && rindex == old(rindex) + l
    {
      if rindex + l > size {
        return None;
      }
      r := Some(data[rindex..rindex + l]);
      assert data[rindex..rindex + l] == View()[rindex..rindex + l];
      rindex := rindex + l;
    }

    /** The bytes of a string, into a buffer that holds any; a NUL among them ends the C string. */
    method ConsumeString() returns (r: Option<Text>)
      requires Valid()
      modifies this`rindex
      ensures var n := ReadString(View(), old(rindex));
              if n.NoName? then r.None? && rindex == old(rindex) else r == Some(n.text) && rindex == n.next
    {
      if rindex >= size {
        return None;
      }
      var k: int := data[rindex];
      if rindex + 1 + k > size {
        return None;
      }
      r := Some(CString(data[rindex + 1..rindex + 1 + k]));
      assert data[rindex + 1..rindex + 1 + k] == View()[rindex + 1..rindex + 1 + k];
      rindex := rindex + 1 + k;
    }

    /** parse_rdata; what is left to check is whether as many bytes were read as the record claims. */
    method ParseRdata(kind: nat, len: nat) returns (r: Option<Rdata>)
      requires Valid() && rindex + len <= size
      modifies this`rindex
      ensures var d := ReadRdata(View(), old(rindex), kind, len);
              if d.NoRdata? || d.next != old(rindex) + len then r.None?
              else r == Some(d.data) && rindex == d.next
    {
      hide ReadName, ReadString, S.Decode, U16At;
      var start := rindex;
      r := None;
      if kind == TYPE_PTR || kind == TYPE_CNAME || kind == TYPE_NS {
        var n := ConsumeName(DOMAIN_NAME_MAX);
        r := if n.Some? then Some(Ptr(n.value)) else None;
      } else if kind == TYPE_SRV {
        r := ParseSrv();
      } else if kind == TYPE_HINFO {
        var cpu := ConsumeString();
        if cpu.Some? {
          var os := ConsumeString();
          r := if os.Some? then Some(Hinfo(cpu.value, os.value)) else None;
        }
      } else if kind == TYPE_TXT {
        var bytes := ConsumeBytes(len);
        var p := S.Decode(bytes.value);
        r := if p.Overflow? then None else Some(Txt(Reversed(p.ts)));
      } else if kind == TYPE_A {
        var address := ConsumeBytes(4);
        r := if address.Some? then Some(A(address.value)) else None;
      } else if kind == TYPE_AAAA {
        var address := ConsumeBytes(16);
        r := if address.Some? then Some(Aaaa(address.value)) else None;
      } else {
        var bytes := ConsumeBytes(len);
        r := Some(Generic(bytes.value));
      }
      if r.Some? && rindex - start != len {
        r := None;
      }
    }

    method ParseSrv() returns (r: Option<Rdata>)
      requires Valid()
      modifies this`rindex
      ensures if old(rindex) + 6 > size || ReadName(View(), old(rindex) + 6, DOMAIN_NAME_MAX).NoName? then r.None?
              else var n := ReadName(View(), old(rindex) + 6, DOMAIN_NAME_MAX);
                   && r == Some(Srv(U16At(View(), old(rindex)), U16At(View(), old(rindex) + 2),
                     U16At(View(), old(rindex) + 4), n.text))
                   && rindex == n.next
    {
      hide ReadName, U16At;
      var priority := ConsumeUint16();
      if priority.None? {
        return None;
      }
      var weight := ConsumeUint16();
      if weight.None? {
        return None;
      }
      var port := ConsumeUint16();
      if port.None? {
        return None;
      }
      var n := ConsumeName(DOMAIN_NAME_MAX);
      r := if n.Some? then Some(Srv(priority.value, weight.value, port.value, n.value)) else None;
    }

    /** The name and the four fields before the data of a record. */
    method ConsumeHead() returns (name: Option<Text>, kind: nat, clazz: nat, ttl: nat, len: nat)
      requires Valid()
      modifies this`rindex
      ensures var n := ReadName(View(), old(rindex), DOMAIN_NAME_MAX);
              if n.NoName? || n.next + 10 > size || n.next + 10 + U16At(View(), n.next + 8) > size then name.None?
              else && name == Some(n.text) && rindex == n.next + 10
                   && kind == U16At(View(), n.next) && clazz == U16At(View(), n.next + 2)
                   && ttl == U32At(View(), n.next + 4) && len == U16At(View(), n.next + 8)
    {
      hide ReadName, U16At, U32At;
      kind, clazz, ttl, len := 0, 0, 0, 0;
      name := ConsumeName(DOMAIN_NAME_MAX);
      if name.Some? {
        var a := ConsumeUint16();
        var b := ConsumeUint16();
        var c := ConsumeUint32();
        var d := ConsumeUint16();
        if a.None? || b.None? || c.None? || d.None? || rindex + d.value > size {
          return None, 0, 0, 0, 0;
        }
        kind, clazz, ttl, len := a.value, b.value, c.value, d.value;
      }
    }

    /** avahi_dns_packet_consume_record: the record, and whether its cache flush bit is set. */
    method ConsumeRecord() returns (r: Option<Record>, flush: bool)
      requires Valid()
      modifies this`rindex
      ensures var read := ReadRecord(View(), old(rindex));
              if read.NoRecord? then r.None? else r == Some(read.record) && flush == read.flush && rindex == read.next
    {
      hide ReadName, U16At, U32At, ReadRdata, RecordTyped, RecordValid, NormalForm, WellFormedName;
      var name, kind, clazz, ttl, len := ConsumeHead();
      flush := clazz >= FLAG_BIT;
      if name.None? {
        return None, flush;
      }
      ghost var at := rindex;
      ReadNameNormal(View(), old(rindex), DOMAIN_NAME_MAX);
      var normal := NewName(name.value);
      if normal.None? {
        return None, flush;
      }
      var d := ParseRdata(kind, len);
      if d.None? {
        return None, flush;
      }
      var record := Record(Key(normal.value, WithoutFlag(clazz), kind), if ttl == TTL_NONE then DEFAULT_TTL
        else ttl, d.value);
      ReadRdataTyped(View(), at, kind, len, record.key, record.ttl);
      var ok := RecordIsValid(record);
      r := if ok then Some(record) else None;
    }

    /** avahi_dns_packet_consume_key: the key, and whether a unicast answer is asked for. */
    method ConsumeKey() returns (r: Option<Key>, unicast: bool)
      requires Valid()
      modifies this`rindex
      ensures var read := ReadKey(View(), old(rindex));
              if read.NoKey? then r.None? else r == Some(read.key) && unicast == read.unicast && rindex == read.next
    {
      hide ReadName, U16At, NormalForm, WellFormedName;
      r, unicast := None, false;
      var name := ConsumeName(KEY_NAME_MAX);
      if name.None? {
        return;
      }
      ReadNameNormal(View(), old(rindex), KEY_NAME_MAX);
      var kind := ConsumeUint16();
      if kind.None? {
        return;
      }
      var clazz := ConsumeUint16();
      if clazz.None? {
        return;
      }
      unicast := clazz.value >= FLAG_BIT;
      var normal := NewName(name.value);
      if normal.None? {
        return;
      }
      var ok := IsValidDomainName(normal.value);
      r := if ok then Some(Key(normal.value, WithoutFlag(clazz.value), kind.value)) else None;
    }
  }

  lemma JoinLabel(done: seq<Text>, l: Text)
    ensures Join(done + [l]) == if done == [] then Escape(l) else Join(done) + [DOT] + Escape(l)
    ensures |Escape(l)| >= |l|
  {
    EscapeLength(l);
    if done == [] {
      assert [] + [l] == [l];
    } else {
      JoinAppend(done, l);
      ConcatAssociative(Join(done), [DOT], Escape(l));
    }
  }

  lemma RecordTogether(b: Text, n: Text, fixed: Text, len: Text, d: Text)
    ensures b + n + fixed + len + d == b + (n + (fixed + len) + d)
  {
    ConcatAssociative(b, n, fixed);
    ConcatAssociative(b, n + fixed, len);
    ConcatAssociative(n, fixed, len);
    ConcatAssociative(b, n + (fixed + len), d);
  }

  lemma StopsStep(at: nat, table: NameTable, name: Text, l: Text, rest: Text, max: nat)
    requires name != [] && !Compressible(table, name) && Unescape(name) == Some(Cut(l, rest)) && at + 1 + |l| <= max
    ensures StopsAtPointer(at, table, name, max) == StopsAtPointer(at + 1 + |l|, Enter(table, name, at), rest, max)
  {
  }

  lemma StopsThere(at: nat, table: NameTable, name: Text, max: nat)
    requires name != [] && Compressible(table, name)
    ensures StopsAtPointer(at, table, name, max) <==> at + 2 > max
  {
  }

  lemma LetterWires(a: Byte, b: Byte, at: nat, max: nat)
    requires 97 <= a <= 122 && 97 <= b <= 122 && a != b && at + 7 < OFFSET_RANGE && max == at + 10
    ensures KeyTyped(Key([a], 1, 1)) && WellFormedName([a])
    ensures KeyWire(at, map[], Key([a], 1, 1), false).Wired?
    ensures var w := KeyWire(at, map[], Key([a], 1, 1), false);
            && |w.bytes| == 7 && w.table == map[[a] := at]
            && !Compressible(w.table, [b, DOT, a]) && StopsAtPointer(at + 7, w.table, [b, DOT, a], max)
            && NameWire(at + 7, w.table, [b, DOT, a]).Wired? && |NameWire(at + 7, w.table, [b, DOT, a]).bytes| == 4
  {
    hide NameWire, StopsAtPointer, Unescape, LabelsOf, U16;
    LetterNames(a, b);
    var name: Text, longer: Text := [a], [b, DOT, a];
    NameWireStep(at, map[], name, name, []);
    NameWireEnd(at + 2, map[name := at]);
    var w := KeyWire(at, map[], Key(name, 1, 1), false);
    assert longer !in w.table;
    NameWireStep(at + 7, w.table, longer, [b], name);
    NameWirePointer(at + 9, Enter(w.table, longer, at + 7), name);
    StopsStep(at + 7, w.table, longer, [b], name, max);
    StopsThere(at + 9, Enter(w.table, longer, at + 7), name, max);
  }

  /** One byte less than a name needs: its first label is left behind in the packet although the name is refused. */
  method LabelLeftBehind(a: Byte, b: Byte) returns (p: Packet, ok: bool, ghost before: Text, ghost table: NameTable)
    requires 97 <= a <= 122 && 97 <= b <= 122 && a != b
    ensures fresh(p) && TableOk(before, table) && p.Extends(before, table)
    ensures !ok && |before| < p.size
  {
    hide TableOk, NameWire, StopsAtPointer, U16, LabelsOf, KeyWire, WellFormedName, Unescape;
    p := Packet.NewQuery(EXTRA_SIZE + HEADER_SIZE + 10);
    LetterWires(a, b, p.size, p.data.Length);
    ok := p.AppendKey(Key([a], 1, 1), false);
    before, table := p.View(), p.nameTable;
    LetterNames(a, b);
    ok := p.AppendName([b, DOT, a]);
  }
}
