/** How good the size estimates of avahi-core/rr.c are: they miss one byte for every domain name. */
module Estimates {
  import opened Utf8
  import opened Domain
  import opened Wire
  import opened Rr
  import opened RecordWire
  import opened DnsPacket
  import opened PacketContents
  import S = StringList

  /** A name whose text has no escapes and does not end in a dot. */
  predicate Unescaped(name: Text) {
    name != [] && BACKSLASH !in name && name[|name| - 1] != DOT
  }

  ghost predicate OnlyLonger(table: NameTable, n: nat) {
    forall name :: name in table ==> |name| > n
  }

  /** The first label of an unescaped name, and what is behind it. */
  lemma UnescapedCut(name: Text)
    requires WellFormedName(name) && Unescaped(name)
    ensures Unescape(name).Some?
    ensures var c := Unescape(name).value;
            if c.rest == [] then c.text == name
            else |c.text| + 1 + |c.rest| == |name| && WellFormedName(c.rest) && Unescaped(c.rest)
  {
    hide Lex, LabelsOf, WellFormed;
    LexUnescaped(name);
    FirstLabel(name);
    var c := Unescape(name).value;
    assert c == Lex(name).value;
    if DOT in name {
      assert CutAtDot(name, c);
      assert c.rest[|c.rest| - 1] == name[|name| - 1];
    }
  }

  lemma EnterShorter(table: NameTable, name: Text, at: nat, n: nat)
    requires OnlyLonger(table, |name|) && n < |name|
    ensures OnlyLonger(Enter(table, name, at), n) && !Compressible(table, name)
  {
  }

  /** Written without anything to point at, an unescaped name takes two bytes more than its text. */
  lemma {:induction false} UnescapedLength(at: nat, table: NameTable, name: Text)
    requires WellFormedName(name) && Unescaped(name) && OnlyLonger(table, |name|)
    ensures NameWire(at, table, name).Wired? && |NameWire(at, table, name).bytes| == |name| + 2
    decreases |name|
  {
    hide WellFormedName, Unescape, NameWire, OnlyLonger, Enter, Compressible;
    UnescapedCut(name);
    var c := Unescape(name).value;
    EnterShorter(table, name, at, |c.rest|);
    NameWireStep(at, table, name, c.text, c.rest);
    if c.rest == [] {
      NameWireEnd(at + 1 + |c.text|, Enter(table, name, at));
    } else {
      UnescapedLength(at + 1 + |c.text|, Enter(table, name, at), c.rest);
    }
  }

  lemma CutLater(s: Text, k: nat, n: nat)
    requires k + n <= |s|
    ensures var more := s[k..];
            s[|s| - n..] == more[|more| - n..] && s[..|s| - n] == s[..k] + more[..|more| - n]
  {
  }

  /** An escape in a label takes more room in the text than on the wire. */
  lemma {:induction false} EscapeShortens(name: Text)
    requires Lex(name).Some?
    ensures var c := Lex(name).value;
            && c.rest == name[|name| - |c.rest|..]
            && |c.text| + |c.rest| + (if c.rest == [] then 0 else 1) <= |name|
            && (BACKSLASH in name[..|name| - |c.rest|] ==>
              |c.text| + |c.rest| + (if c.rest == [] then 0 else 1) < |name|)
  {
    hide Lex;
    LexStep(name);
    var t := NextToken(name);
    if t.Char? {
      var more := name[t.width..];
      EscapeShortens(more);
      var c := Lex(more).value;
      CutLater(name, t.width, |c.rest|);
    } else if name != [] {
      assert name[..1] == [DOT] && name[|name| - |name[1..]|..] == name[1..];
    }
  }

  /** The first label of a name that is not unescaped, and what is behind it. */
  lemma EscapedCut(name: Text)
    requires WellFormedName(name) && name != [] && !Unescaped(name)
    ensures Unescape(name).Some? && WellFormedName(Unescape(name).value.rest)
    ensures var c := Unescape(name).value;
            if c.rest == [] then |c.text| < |name|
            else if Unescaped(c.rest) then |c.text| + 2 + |c.rest| <= |name|
            else |c.text| + 1 + |c.rest| <= |name|
  {
    hide Lex, LabelsOf, WellFormed;
    FirstLabel(name);
    EscapeShortens(name);
    var c := Unescape(name).value;
    assert c == Lex(name).value;
    assert name == name[..|name| - |c.rest|] + c.rest;
    if BACKSLASH !in name {
      LexUnescaped(name);
      assert c.rest != [] ==> c.rest[|c.rest| - 1] == name[|name| - 1];
    }
  }

  /** Every other name takes a byte less than that, or even fewer. */
  lemma {:induction false} EscapedLength(at: nat, table: NameTable, name: Text)
    requires WellFormedName(name) && !Unescaped(name)
    ensures NameWire(at, table, name).Wired? && |NameWire(at, table, name).bytes| <= |name| + 1
    decreases |name|
  {
    hide WellFormedName, Unescape, NameWire, Unescaped, Enter, Compressible;
    NameLength(at, table, name);
    if Compressible(table, name) {
      PointerLength(at, table, name);
    } else if name != [] {
      EscapedCut(name);
      var c := Unescape(name).value;
      NameWireStep(at, table, name, c.text, c.rest);
      NameLength(at + 1 + |c.text|, Enter(table, name, at), c.rest);
      if !Unescaped(c.rest) {
        EscapedLength(at + 1 + |c.text|, Enter(table, name, at), c.rest);
      }
    }
  }

  lemma PointerLength(at: nat, table: NameTable, name: Text)
    requires Compressible(table, name)
    ensures NameWire(at, table, name).Wired? && |NameWire(at, table, name).bytes| <= |name| + 1
  {
  }

  /** Names in normal form do not end in a dot that is not escaped. */
  lemma NormalUnescaped(name: Text)
    requires NoNul(name) && NormalName(name)
    ensures Unescaped(name) <==> name != [] && BACKSLASH !in name
  {
    if name != [] && BACKSLASH !in name {
      LabelsAreProper(name);
      LastByte(Labels(name));
    }
  }

  lemma {:induction false} LastByte(ls: seq<Text>)
    requires ProperLabels(ls) && Join(ls) != [] && BACKSLASH !in Join(ls)
    ensures Join(ls)[|Join(ls)| - 1] != DOT
  {
    if |ls| == 1 {
      LastEscaped(ls[0]);
    } else {
      JoinNonEmpty(ls[1..]);
      var t := Join(ls[1..]);
      assert forall i :: 0 <= i < |t| ==> t[i] == Join(ls)[|Join(ls)| - |t| + i];
      LastByte(ls[1..]);
    }
  }

  lemma {:induction false} LastEscaped(l: Text)
    requires l != [] && BACKSLASH !in Escape(l)
    ensures Escape(l)[|Escape(l)| - 1] != DOT
  {
    if |l| == 1 {
      assert Escape(l) == EscapeByte(l[0]) + Escape(l[1..]);
      assert Escape(l[1..]) == [];
    } else {
      var t := Escape(l[1..]);
      assert forall i :: 0 <= i < |t| ==> t[i] == Escape(l)[|Escape(l)| - |t| + i];
      LastEscaped(l[1..]);
    }
  }

  /** What names in data are estimated to take: a byte more than their text. */
  lemma NamesEstimated(r: Record)
    ensures KeyEstimate(r.key) == |r.key.name| + 5
    ensures r.data.Ptr? ==> RecordEstimate(r) == |r.key.name| + |r.data.target| + 12
    ensures r.data.Srv? ==> RecordEstimate(r) == |r.key.name| + |r.data.target| + 18
  {
  }

  /** The estimate of a key is at most one byte short. */
  lemma KeyWithin(at: nat, table: NameTable, k: Key, unicast: bool)
    requires Askable(k)
    ensures KeyWire(at, table, k, unicast).Wired? && |KeyWire(at, table, k, unicast).bytes| <= KeyEstimate(k) + 1
  {
    KeyWritable(at, table, k, unicast);
  }

  /** The domain names of a record. */
  function NamesIn(r: Record): nat {
    if r.data.Ptr? || r.data.Srv? then 2 else 1
  }

  /** The estimate of a record is at most one byte short for each of its names. */
  lemma RecordWithin(at: nat, table: NameTable, r: Record, flush: bool)
    requires Proper(r)
    ensures RdataFits(at, table, r) && WireOf(at, table, r, flush, 0).Wired?
    ensures |WireOf(at, table, r, flush, 0).bytes| <= RecordEstimate(r) + NamesIn(r)
  {
    hide NameWire, U16, U32, RecordTyped, S.Encode, WellFormedName;
    RecordWritable(at, table, r, flush);
    NameLength(at, table, r.key.name);
    var n := NameWire(at, table, r.key.name);
    DataWithin(at + |n.bytes| + 10, n.table, r);
  }

  /** The part of the estimate that is about the data. */
  function DataEstimate(r: Record): nat {
    RecordEstimate(r) - KeyEstimate(r.key) - 6
  }

  lemma DataWithin(at: nat, table: NameTable, r: Record)
    requires Proper(r)
    ensures RdataWire(at, table, r.data).Wired?
    ensures |RdataWire(at, table, r.data).bytes| <= DataEstimate(r) + NamesIn(r) - 1
    ensures !r.data.Ptr? && !r.data.Srv? ==> |RdataWire(at, table, r.data).bytes| == DataEstimate(r)
  {
    hide NameWire, U16, S.Encode, WellFormedName;
    if r.data.Ptr? {
      NameLength(at, table, r.data.target);
    } else if r.data.Srv? {
      NameLength(at + 6, table, r.data.target);
    } else if r.data.Hinfo? {
      assert |StringBytes(r.data.cpu)| == 1 + |r.data.cpu| && |StringBytes(r.data.os)| == 1 + |r.data.os|;
    }
  }

  /** The packet that is made to measure for a large record without names in its data is one byte too small for it
      exactly when its name is unescaped. */
  lemma MadeToMeasure(r: Record, flush: bool)
    requires Proper(r) && !r.data.Ptr? && !r.data.Srv?
    ensures HEADER_SIZE + |WithRecord(NOTHING, r, flush).body| <= Capacity(RecordEstimate(r) + HEADER_SIZE + EXTRA_SIZE)
            <==> !Unescaped(r.key.name)
    ensures NormalName(r.key.name) ==> (Unescaped(r.key.name) <==> r.key.name != [] && BACKSLASH !in r.key.name)
    ensures Unescaped(r.key.name) ==> |WithRecord(NOTHING, r, flush).body| == RecordEstimate(r) + 1
  {
    hide NameWire, U16, U32, RecordTyped, S.Encode, WellFormedName, RdataWire, Unescaped, NormalName;
    RecordWritable(HEADER_SIZE, map[], r, flush);
    ValidName(r);
    if Unescaped(r.key.name) {
      UnescapedLength(HEADER_SIZE, map[], r.key.name);
    } else {
      EscapedLength(HEADER_SIZE, map[], r.key.name);
    }
    if NormalName(r.key.name) {
      NormalUnescaped(r.key.name);
    }
    var n := NameWire(HEADER_SIZE, map[], r.key.name);
    DataWithin(HEADER_SIZE + |n.bytes| + 10, n.table, r);
    assert [] + WireOf(HEADER_SIZE, map[], r, flush, 0).bytes == WireOf(HEADER_SIZE, map[], r, flush, 0).bytes;
  }

  lemma ValidName(r: Record)
    requires Proper(r)
    ensures WellFormedName(r.key.name) && NoNul(r.key.name)
  {
  }
}
