/** Where each byte of a name, a key, a record and a header is: the formats of sections 3.2.1 and 4.1.1 to 4.1.4 of
    RFC 1035, of RFC 2782 and RFC 3596, and the flags that RFC 6762 keeps in the class. */
module WireFormat {
  import opened Utf8
  import opened Domain
  import opened Wire
  import opened Rr
  import opened RecordWire
  import opened RecordRoundTrip
  import opened DnsPacket
  import opened Lists
  import S = StringList

  // ---------------------------------------------------------------- names

  predicate Short(ls: seq<Text>) {
    forall i :: 0 <= i < |ls| ==> 0 < |ls[i]| < 64
  }

  /** Labels one after the other, each with its length in front. */
  function Plain(ls: seq<Text>): Text
    requires Short(ls)
  {
    if ls == [] then [] else [|ls[0]|] + ls[0] + Plain(ls[1..])
  }

  /** The end of a name: a zero byte, or a pointer to where its last labels are already. */
  function Ending(table: NameTable, tail: Text): Text {
    if tail == [] then [0]
    else if tail in table && table[tail] < 0x4000 then [192 + table[tail] / 256, table[tail] % 256]
    else [0, 0]
  }

  lemma ShortLabels(name: Text)
    requires WellFormedName(name)
    ensures Short(Labels(name))
  {
    LabelsShort(name);
  }

  lemma {:induction false} LabelsShort(s: Text)
    requires LabelsOf(s).Some?
    ensures forall i :: 0 <= i < |LabelsOf(s).value| ==> |LabelsOf(s).value[i]| < 64
    decreases |s|
  {
    hide Lex;
    if s != [] {
      LabelsShort(Unescape(s).value.rest);
    }
  }

  /** A name is written label by label up to the first tail of it that can be pointed at, and ends with that pointer or
      with a zero byte; the root written as "." takes two of them. */
  lemma {:induction false} NameLayout(at: nat, table: NameTable, name: Text) returns (k: nat, tail: Text)
    requires WellFormedName(name)
    ensures NameWire(at, table, name).Wired? && k <= |Labels(name)| && Short(Labels(name))
    ensures WellFormedName(tail) && Labels(tail) == Labels(name)[k..] && |tail| <= |name|
    ensures tail == [] || tail == [DOT] || (tail in table && table[tail] < 0x4000)
    ensures NameWire(at, table, name).bytes == Plain(Labels(name)[..k]) + Ending(table, tail)
    ensures name != [] && name in table && table[name] < 0x4000 ==> k == 0 && tail == name
    decreases |name|
  {
    hide NameWire, LabelsOf, Unescape, Labels, WellFormedName;
    NameLength(at, table, name);
    ShortLabels(name);
    k, tail := 0, name;
    assert Labels(name)[..0] == [] && Labels(name)[0..] == Labels(name);
    if name == [] {
      NameWireEnd(at, table);
    } else if Compressible(table, name) {
      NameWirePointer(at, table, name);
    } else {
      FirstLabel(name);
      var c := Unescape(name).value;
      NameWireStep(at, table, name, c.text, c.rest);
      if c.text == [] {
        OnlyDotIsEmpty(name);
        NameWireEnd(at + 1, Enter(table, name, at));
      } else {
        k, tail := NameLayout(at + 1 + |c.text|, Enter(table, name, at), c.rest);
        assert Labels(name)[0] == c.text;
        OneLabelMore(name, c.text, c.rest, k);
        k := k + 1;
      }
    }
  }

  lemma OneLabelMore(name: Text, l: Text, rest: Text, k: nat)
    requires WellFormedName(name) && WellFormedName(rest) && Labels(name) == [l] + Labels(rest) && k <= |Labels(rest)|
    requires Short(Labels(name)) && |l| < 64
    ensures Labels(name)[k + 1..] == Labels(rest)[k..] && Short(Labels(rest))
    ensures Plain(Labels(name)[..k + 1]) == LabelBytes(l) + Plain(Labels(rest)[..k])
  {
    hide Labels, WellFormedName;
    var ls := Labels(rest);
    assert forall i :: 0 <= i < |ls| ==> ([l] + ls)[i + 1] == ls[i];
    assert ([l] + ls)[0] == l;
    assert ([l] + ls)[..k + 1][1..] == ls[..k];
  }

  // ---------------------------------------------------------------- keys and records

  /** The number that two bytes stand for, the high one first. */
  function Pair(b: Text, i: nat): (v: int)
    requires i + 2 <= |b|
  {
    var high: int, low: int := b[i], b[i + 1];
    high * 256 + low
  }

  /** The type of a record selects its data by the numbers that are assigned to the types. */
  lemma TypeNumbers(r: Record)
    requires RecordTyped(r)
    ensures r.data.A? <==> r.key.kind == 1
    ensures r.data.Ptr? <==> r.key.kind == 2 || r.key.kind == 5 || r.key.kind == 12
    ensures r.data.Hinfo? <==> r.key.kind == 13
    ensures r.data.Txt? <==> r.key.kind == 16
    ensures r.data.Aaaa? <==> r.key.kind == 28
    ensures r.data.Srv? <==> r.key.kind == 33
  {
  }

  /** A key is a name, a type and a class, whose top bit asks for a unicast response. */
  lemma KeyLayout(at: nat, table: NameTable, k: Key, unicast: bool)
    requires KeyTyped(k) && KeyWire(at, table, k, unicast).Wired? && k.clazz < 0x8000
    ensures NameWire(at, table, k.name).Wired?
    ensures var b, i := KeyWire(at, table, k, unicast).bytes, |NameWire(at, table, k.name).bytes|;
            && |b| == i + 4 && b[..i] == NameWire(at, table, k.name).bytes
            && Pair(b, i) == k.kind && Pair(b, i + 2) == k.clazz + if unicast then 0x8000 else 0
  {
    hide NameWire;
  }

  /** A record is a name, a type, a class with the cache flush bit on top, a TTL, and data with its length in front. */
  lemma RecordLayout(at: nat, table: NameTable, r: Record, flush: bool, maxTtl: nat, b: Text, n: Wired, d: Wired)
    requires RecordTyped(r) && RdataFits(at, table, r) && maxTtl < 0x1_0000_0000
    requires WireOf(at, table, r, flush, maxTtl).Wired? && b == WireOf(at, table, r, flush, maxTtl).bytes
    requires n == NameWire(at, table, r.key.name)
    requires n.Wired? ==> d == RdataWire(at + |n.bytes| + 10, n.table, r.data)
    ensures n.Wired? && d.Wired? && |b| == |n.bytes| + 10 + |d.bytes|
    ensures b[..|n.bytes|] == n.bytes && b[|n.bytes| + 10..] == d.bytes
    ensures FixedLayout(b[|n.bytes|..|n.bytes| + 10], r.key.kind, r.key.clazz % 0x8000 + if flush then 0x8000 else 0,
                        if maxTtl == 0 || r.ttl <= maxTtl then r.ttl else maxTtl, |d.bytes|)
  {
    hide NameWire, RdataWire, Fixed, FixedLayout, RecordTyped;
    var i, fixed := |n.bytes|, Fixed(r, flush, maxTtl) + U16(|d.bytes|);
    assert b == n.bytes + fixed + d.bytes;
    assert b[i..i + 10] == fixed;
    FixedNumbers(r, flush, maxTtl, |d.bytes|);
  }

  /** Ten bytes: a type, a class, a TTL of four bytes and a length. */
  predicate FixedLayout(b: Text, kind: nat, clazz: nat, ttl: nat, len: nat)
    requires |b| == 10
  {
    && Pair(b, 0) == kind && Pair(b, 2) == clazz && Pair(b, 4) * 0x10000 + Pair(b, 6) == ttl && Pair(b, 8) == len
  }

  lemma FixedNumbers(r: Record, flush: bool, maxTtl: nat, len: nat)
    requires RecordTyped(r) && maxTtl < 0x1_0000_0000 && len < 0x10000
    ensures FixedLayout(Fixed(r, flush, maxTtl) + U16(len), r.key.kind,
                        r.key.clazz % 0x8000 + if flush then 0x8000 else 0,
                        if maxTtl == 0 || r.ttl <= maxTtl then r.ttl else maxTtl, len)
  {
    U32Digits(TtlWritten(r.ttl, maxTtl));
  }

  /** The data of a record: numbers and names as above, addresses as they are, strings with their length in front. */
  lemma DataLayout(at: nat, table: NameTable, d: Rdata)
    requires d.Srv? ==> d.priority < 0x10000 && d.weight < 0x10000 && d.port < 0x10000
    requires RdataWire(at, table, d).Wired?
    ensures d.Ptr? ==> RdataWire(at, table, d).bytes == NameWire(at, table, d.target).bytes
    ensures d.Srv? ==>
              var b := RdataWire(at, table, d).bytes;
              && NameWire(at + 6, table, d.target).Wired? && |b| >= 6
              && Pair(b, 0) == d.priority && Pair(b, 2) == d.weight && Pair(b, 4) == d.port
              && b[6..] == NameWire(at + 6, table, d.target).bytes
    ensures d.Hinfo? && |d.cpu| <= 255 && |d.os| <= 255 ==>
              RdataWire(at, table, d).bytes == [|d.cpu|] + d.cpu + [|d.os|] + d.os
    ensures d.A? || d.Aaaa? ==> RdataWire(at, table, d).bytes == d.address
    ensures d.Generic? ==> RdataWire(at, table, d).bytes == d.data
  {
    hide NameWire, S.Encode;
    if d.Srv? {
      var b, w := RdataWire(at, table, d).bytes, NameWire(at + 6, table, d.target).bytes;
      var numbers := U16(d.priority) + U16(d.weight) + U16(d.port);
      assert b == numbers + w && b[6..] == w;
    } else if d.Hinfo? && |d.cpu| <= 255 && |d.os| <= 255 {
      assert d.cpu[..|d.cpu|] == d.cpu && d.os[..|d.os|] == d.os;
      ConcatAssociative([|d.cpu|] + d.cpu, [|d.os|], d.os);
    }
  }

  // ---------------------------------------------------------------- packets

  /** The fields of a header are two bytes each: an id, the flags, and the numbers of questions, of answers, of records
      of authorities and of additional ones. */
  lemma HeaderLayout(b: Text)
    requires |b| >= 12
    ensures Pair(b, 2) == U16At(b, 2 * FIELD_FLAGS) && Pair(b, 4) == U16At(b, 2 * FIELD_QDCOUNT)
    ensures Pair(b, 6) == U16At(b, 2 * FIELD_ANCOUNT) && Pair(b, 8) == U16At(b, 2 * FIELD_NSCOUNT)
    ensures FLAG_QR == 0x8000 && FLAG_AA == 0x400 && FLAG_TC == 0x200
  {
  }

  /** A packet leaves 48 bytes for the headers of IP and UDP, and holds at least its own header. */
  lemma CapacityMeans(mtu: nat)
    ensures mtu == 0 ==> Capacity(mtu) == 12 + 256 + 10 + 65535
    ensures 0 < mtu ==> Capacity(mtu) == if mtu <= 60 then 12 else mtu - 48
  {
  }
}
