/** The DNS wire format as avahi-core/dns.c writes and reads it: names with back pointers
    (section 4.1.4 of RFC 1035), keys and resource records. */
module Wire {
  import opened Utf8
  import opened Domain

  const HEADER_SIZE := 12
  const LABELS_MAX := 127
  /** Pointers can only name offsets below this one. */
  const OFFSET_RANGE := 0x4000

  /** The compression table: where the labels of a name start in the packet. */
  type NameTable = map<Text, nat>

  // ---------------------------------------------------------------- writing names

  datatype Wired = Unwritable | Wired(bytes: Text, table: NameTable)

  predicate Compressible(table: NameTable, name: Text) {
    name in table && table[name] < OFFSET_RANGE
  }

  function Pointer(offset: nat): Text
    requires offset < OFFSET_RANGE
  {
    [0xC0 + offset / 256, offset % 256]
  }

  function LabelBytes(l: Text): Text
    requires |l| < LABEL_MAX
  {
    [|l|] + l
  }

  /** The first entry for a name is kept. */
  function Enter(table: NameTable, name: Text, at: nat): NameTable {
    if name in table then table else table[name := at]
  }

  function WiredAfter(front: Text, w: Wired): Wired {
    if w.Wired? then Wired(front + w.bytes, w.table) else w
  }

  /** What is written for a name at offset `at`, and the table afterwards, when room is no issue. */
  function NameWire(at: nat, table: NameTable, name: Text): (w: Wired)
    ensures w.Wired? ==> w.bytes != []
    decreases |name|
  {
    if name == [] then Wired([0], table)
    else if Compressible(table, name) then Wired(Pointer(table[name]), table)
    else
      var c := Unescape(name);
      if c.None? then Unwritable
      else
        var l := c.value.text;
        WiredAfter(LabelBytes(l), NameWire(at + 1 + |l|, Enter(table, name, at), c.value.rest))
  }

  // ---------------------------------------------------------------- reading names

  /** The labels found at idx in at most `fuel` steps; a step is a label, a pointer or the end. */
  function ReadLabels(b: Text, idx: nat, fuel: nat): Option<seq<Text>>
    decreases fuel, b
  {
    if fuel == 0 || idx >= |b| then None
    else
      var n: int := b[idx];
      if n == 0 then Some([])
      else if n < 64 then
        if idx + 1 + n > |b| then None
        else GlueLabels([b[idx + 1..idx + 1 + n]], ReadLabels(b, idx + 1 + n, fuel - 1))
      else if n >= 0xC0 then
        if idx + 2 > |b| then None
        else
          var target := (n - 0xC0) * 256 + b[idx + 1];
          if target < HEADER_SIZE || target >= idx then None else ReadLabels(b, target, fuel - 1)
      else None
  }

  /** The bytes that reading a name takes up at idx: up to the end or the first pointer. */
  function NameExtent(b: Text, idx: nat, fuel: nat): nat
    decreases fuel, b
  {
    if fuel == 0 || idx >= |b| then 0
    else
      var n: int := b[idx];
      if n == 0 then 1
      else if n < 64 then 1 + n + NameExtent(b, idx + 1 + n, fuel - 1)
      else 2
  }

  /** What is not read: a name that runs over the end of the packet, a length with its two top bits different, and a
      pointer that does not go back, or goes into the header. */
  lemma ReadingRefuses(b: Text, idx: nat, fuel: nat)
    ensures idx >= |b| ==> ReadLabels(b, idx, fuel) == None
    ensures idx < |b| && 0 < b[idx] < 64 && idx + 1 + b[idx] > |b| ==> ReadLabels(b, idx, fuel) == None
    ensures idx < |b| && 64 <= b[idx] < 192 ==> ReadLabels(b, idx, fuel) == None
    ensures idx + 1 == |b| && b[idx] >= 192 ==> ReadLabels(b, idx, fuel) == None
    ensures idx + 1 < |b| && b[idx] >= 192 ==>
              var high: int, low: int := b[idx], b[idx + 1];
              !(12 <= (high - 192) * 256 + low < idx) ==> ReadLabels(b, idx, fuel) == None
  {
  }

  /** More steps do not change what has been read. */
  lemma {:induction false} ReadLabelsMore(b: Text, idx: nat, fuel: nat, more: nat)
    requires ReadLabels(b, idx, fuel).Some? && fuel <= more
    ensures ReadLabels(b, idx, more) == ReadLabels(b, idx, fuel)
    ensures NameExtent(b, idx, more) == NameExtent(b, idx, fuel)
    decreases fuel
  {
    var n: int := b[idx];
    if 0 < n < 64 {
      ReadLabelsMore(b, idx + 1 + n, fuel - 1, more - 1);
    } else if n >= 0xC0 {
      ReadLabelsMore(b, (n - 0xC0) * 256 + b[idx + 1], fuel - 1, more - 1);
    }
  }

  /** Bytes added at the end do not change what is read. */
  lemma {:induction false} ReadLabelsExtended(b: Text, c: Text, idx: nat, fuel: nat)
    requires b <= c && ReadLabels(b, idx, fuel).Some?
    ensures ReadLabels(c, idx, fuel) == ReadLabels(b, idx, fuel)
    decreases fuel
  {
    var n: int := b[idx];
    if 0 < n < 64 {
      ReadLabelsExtended(b, c, idx + 1 + n, fuel - 1);
      assert b[idx + 1..idx + 1 + n] == c[idx + 1..idx + 1 + n];
    } else if n >= 0xC0 {
      ReadLabelsExtended(b, c, (n - 0xC0) * 256 + b[idx + 1], fuel - 1);
    }
  }

  /** Every label takes a step, and the end takes one. */
  lemma {:induction false} LabelsTakeSteps(b: Text, idx: nat, fuel: nat)
    requires ReadLabels(b, idx, fuel).Some?
    ensures |ReadLabels(b, idx, fuel).value| < fuel
    decreases fuel
  {
    var n: int := b[idx];
    if 0 < n < 64 {
      LabelsTakeSteps(b, idx + 1 + n, fuel - 1);
    } else if n >= 0xC0 {
      LabelsTakeSteps(b, (n - 0xC0) * 256 + b[idx + 1], fuel - 1);
    }
  }

  // ---------------------------------------------------------------- the round trip of names

  /** At most one pointer before each label: how many steps read a name, from one of its labels on. */
  function StepsFor(name: Text): nat
    requires WellFormedName(name)
  {
    if Labels(name) == [] then 1 else 2 * |Labels(name)|
  }

  /** The name can be read at the offset, without a pointer in front of its first label. */
  ghost predicate EntryOk(b: Text, name: Text, offset: nat) {
    && NoNul(name) && name != [] && WellFormedName(name)
    && HEADER_SIZE <= offset < |b|
    && ReadLabels(b, offset, StepsFor(name)) == Some(Labels(name))
  }

  /** Every entry of the table points at bytes that read as its name. */
  ghost predicate TableOk(b: Text, table: NameTable) {
    forall name :: name in table ==> EntryOk(b, name, table[name])
  }

  lemma TableOkExtended(b: Text, c: Text, table: NameTable)
    requires TableOk(b, table) && b <= c
    ensures TableOk(c, table)
  {
    forall name | name in table
      ensures EntryOk(c, name, table[name])
    {
      assert EntryOk(b, name, table[name]);
      ReadLabelsExtended(b, c, table[name], StepsFor(name));
    }
  }

  /** The text ".", which stands for the root, is written as two end bytes unless it can be pointed at. */
  predicate Misencoded(table: NameTable, name: Text) {
    name == [DOT] && !Compressible(table, name)
  }

  /** Reading through a pointer that was just written. */
  lemma ReadPointer(b: Text, at: nat, target: nat, fuel: nat)
    requires target < OFFSET_RANGE && HEADER_SIZE <= target < at && at + 2 <= |b| && b[at..at + 2] == Pointer(target)
    ensures ReadLabels(b, at, fuel + 1) == ReadLabels(b, target, fuel)
    ensures NameExtent(b, at, fuel + 1) == 2
  {
    assert b[at] == b[at..at + 2][0] && b[at + 1] == b[at..at + 2][1];
  }

  /** Reading over a label that was just written. */
  lemma ReadLabel(b: Text, at: nat, l: Text, fuel: nat)
    requires 0 < |l| < LABEL_MAX && at + 1 + |l| <= |b| && b[at..at + 1 + |l|] == LabelBytes(l)
    ensures ReadLabels(b, at, fuel + 1) == GlueLabels([l], ReadLabels(b, at + 1 + |l|, fuel))
    ensures NameExtent(b, at, fuel + 1) == 1 + |l| + NameExtent(b, at + 1 + |l|, fuel)
  {
    var s := b[at..at + 1 + |l|];
    assert b[at] == s[0] && b[at + 1..at + 1 + |l|] == s[1..];
  }

  lemma RestDotIllFormed(name: Text)
    requires name != [] && Unescape(name).Some? && Unescape(name).value.text != [] && Unescape(name).value.rest == [DOT]
    ensures !WellFormedName(name)
  {
    RootLabels();
    var root: seq<Text> := [[]];
    var l := Unescape(name).value.text;
    assert LabelsOf(name).value == [l] + root;
    assert LabelsOf(name).value[1] == [];
    assert LabelsOf(name).value[0] == l;
  }

  lemma RootLabels()
    ensures Unescape([DOT]) == Some(Cut([], [])) && LabelsOf([DOT]) == Some([[]])
  {
    assert NextToken([DOT]) == Separator;
    assert [DOT][1..] == [];
    assert LabelsOf([]) == Some([]);
    var root: seq<Text> := [[]];
    assert root + [] == root;
  }

  /** The entries that writing `name` at `at` can point to. */
  ghost predicate EntriesOkFor(b: Text, table: NameTable, name: Text, at: nat) {
    forall n :: EntryUsable(b, table, name, at, n)
  }

  ghost predicate EntryUsable(b: Text, table: NameTable, name: Text, at: nat, n: Text) {
    n in table && |n| <= |name| ==> EntryOk(b, n, table[n]) && table[n] < at
  }

  /** What a name that was written with `len` bytes at `at` reads as. */
  ghost predicate ReadsAs(b: Text, at: nat, table: NameTable, name: Text, len: nat)
    requires WellFormedName(name)
  {
    && ReadLabels(b, at, StepsFor(name) + 1) == Some(Labels(name))
    && (name == [] || !Compressible(table, name) ==> ReadLabels(b, at, StepsFor(name)) == Some(Labels(name)))
    && NameExtent(b, at, StepsFor(name) + 1) == (if Misencoded(table, name) then 1 else len)
  }

  lemma WiredSlice(b: Text, at: nat, front: Text, rest: Text)
    requires at + |front + rest| <= |b| && b[at..at + |front + rest|] == front + rest
    ensures b[at..at + |front|] == front && b[at + |front|..at + |front| + |rest|] == rest
  {
    var s := b[at..at + |front + rest|];
    assert b[at..at + |front|] == s[..|front|];
    assert b[at + |front|..at + |front| + |rest|] == s[|front|..];
  }

  lemma RootReads(b: Text, at: nat, table: NameTable)
    requires HEADER_SIZE <= at && at + 2 <= |b| && b[at..at + 2] == [0, 0] && !Compressible(table, [DOT])
    ensures NameWire(at, table, [DOT]) == Wired([0, 0], Enter(table, [DOT], at))
    ensures WellFormedName([DOT]) && Labels([DOT]) == []
    ensures ReadsAs(b, at, table, [DOT], 2)
    ensures EntryOk(b, [DOT], at)
  {
    RootLabels();
    assert b[at] == b[at..at + 2][0];
    assert NameWire(at + 1, Enter(table, [DOT], at), []) == Wired([0], Enter(table, [DOT], at));
    assert LabelBytes([]) + [0] == [0, 0];
    assert EntryOk(b, [DOT], at);
  }

  /** A name reads back, through the pointers it was written with, as its own labels. */
  lemma {:induction false} NameReadsBack(b: Text, at: nat, table: NameTable, name: Text)
    requires NoNul(name) && WellFormedName(name) && HEADER_SIZE <= at
    requires NameWire(at, table, name).Wired?
    requires var w := NameWire(at, table, name).bytes; at + |w| <= |b| && b[at..at + |w|] == w
    requires EntriesOkFor(b, table, name, at)
    ensures ReadsAs(b, at, table, name, |NameWire(at, table, name).bytes|)
    decreases |name|
  {
    if name == [] {
      assert b[at] == b[at..at + 1][0];
    } else if Compressible(table, name) {
      assert EntryUsable(b, table, name, at, name);
      ReadPointer(b, at, table[name], StepsFor(name));
    } else {
      FirstLabel(name);
      var Cut(l, rest) := Unescape(name).value;
      if l == [] {
        OnlyDotIsEmpty(name);
        RootReads(b, at, table);
      } else {
        var next, table' := at + 1 + |l|, Enter(table, name, at);
        LabelWritten(b, at, table, name, l, rest, next, table');
        NameReadsBack(b, next, table', rest);
        ReadsThroughLabel(b, at, table, name, l, rest, next, table', |NameWire(next, table', rest).bytes|);
      }
    }
  }

  lemma NameWireEnd(at: nat, table: NameTable)
    ensures NameWire(at, table, []) == Wired([0], table)
  {
  }

  lemma NameWirePointer(at: nat, table: NameTable, name: Text)
    requires name != [] && Compressible(table, name)
    ensures NameWire(at, table, name) == Wired(Pointer(table[name]), table)
  {
  }

  lemma NameWireStep(at: nat, table: NameTable, name: Text, l: Text, rest: Text)
    requires name != [] && !Compressible(table, name) && Unescape(name) == Some(Cut(l, rest))
    ensures NameWire(at, table, name) == WiredAfter(LabelBytes(l), NameWire(at + 1 + |l|, Enter(table, name, at), rest))
  {
  }

  /** What writing a label and then the rest of a name leaves in the buffer. */
  lemma LabelWritten(b: Text, at: nat, table: NameTable, name: Text, l: Text, rest: Text, next: nat, table': NameTable)
    requires name != [] && !Compressible(table, name) && Unescape(name) == Some(Cut(l, rest))
    requires next == at + 1 + |l| && table' == Enter(table, name, at)
    requires NameWire(at, table, name).Wired?
    requires at + |NameWire(at, table, name).bytes| <= |b|
    requires b[at..at + |NameWire(at, table, name).bytes|] == NameWire(at, table, name).bytes
    requires EntriesOkFor(b, table, name, at)
    ensures NameWire(next, table', rest).Wired?
    ensures NameWire(at, table, name).table == NameWire(next, table', rest).table
    ensures |NameWire(at, table, name).bytes| == 1 + |l| + |NameWire(next, table', rest).bytes|
    ensures next + |NameWire(next, table', rest).bytes| <= |b|
    ensures b[next..next + |NameWire(next, table', rest).bytes|] == NameWire(next, table', rest).bytes
    ensures b[at..next] == LabelBytes(l)
    ensures EntriesOkFor(b, table', rest, next)
  {
    var w := NameWire(next, table', rest);
    NameWireStep(at, table, name, l, rest);
    WiredSlice(b, at, LabelBytes(l), w.bytes);
    forall n
      ensures EntryUsable(b, table', rest, next, n)
    {
      assert EntryUsable(b, table, name, at, n);
    }
  }

  lemma OnlyDotIsEmpty(name: Text)
    requires name != [] && Unescape(name) == Some(Cut([], []))
    ensures name == [DOT]
  {
  }

  /** The steps that read a name are one more than those that read what follows its first label. */
  lemma StepsAfterLabel(name: Text)
    requires WellFormedName(name) && name != [] && Unescape(name).Some? && Unescape(name).value.text != []
    requires WellFormedName(Unescape(name).value.rest)
    ensures var rest := Unescape(name).value.rest;
            if rest == [] then StepsFor(name) == StepsFor(rest) + 1 else StepsFor(name) == StepsFor(rest) + 2
  {
    FirstLabel(name);
    if Unescape(name).value.rest == [DOT] {
      RestDotIllFormed(name);
    }
    var rest := Unescape(name).value.rest;
    if Labels(rest) == [] {
      NoLabelsNoText(rest);
    }
  }

  lemma ReadsThroughLabel(b: Text, at: nat, table: NameTable, name: Text, l: Text, rest: Text, next: nat,
                          table': NameTable, len: nat)
    requires WellFormedName(name) && WellFormedName(rest) && name != [] && !Compressible(table, name)
    requires Unescape(name) == Some(Cut(l, rest)) && l != []
    requires next == at + 1 + |l| <= |b| && b[at..next] == LabelBytes(l) && ReadsAs(b, next, table', rest, len)
    ensures ReadsAs(b, at, table, name, 1 + |l| + len)
  {
    hide ReadLabels, NameExtent, LabelsOf;
    StepsAfterLabel(name);
    if rest == [DOT] {
      RestDotIllFormed(name);
    }
    FirstLabel(name);
    var f := StepsFor(name) - 1;
    ReadLabelsMore(b, next, f, StepsFor(rest) + 1);
    ReadLabelsMore(b, next, f, f + 1);
    ReadLabel(b, at, l, f);
    ReadLabel(b, at, l, f + 1);
  }

  lemma NoLabelsNoText(s: Text)
    requires WellFormedName(s) && Labels(s) == [] && s != [DOT]
    ensures s == []
  {
    if s != [] {
      LabelsOfSomething(s);
      var c := Unescape(s).value;
      assert LabelsOf(s).value == [[]];
      assert LabelsOf(s).value[0] == c.text;
      if c.rest != [] {
        LabelsOfSomething(c.rest);
      }
      OnlyDotIsEmpty(s);
    }
  }

  /** Every entry is an old one or names labels that were just written. */
  ghost predicate EntriesFrom(b: Text, table: NameTable, table': NameTable, at: nat) {
    forall n :: EntryKept(b, table, table', at, n)
  }

  ghost predicate EntryKept(b: Text, table: NameTable, table': NameTable, at: nat, n: Text) {
    n in table' ==> (n in table && table'[n] == table[n]) || EntryFrom(b, n, table'[n], at)
  }

  ghost predicate EntryFrom(b: Text, n: Text, offset: nat, at: nat) {
    EntryOk(b, n, offset) && at <= offset
  }

  /** Writing a name keeps the entries and adds some for its own labels. */
  lemma {:induction false} NameEntries(b: Text, at: nat, table: NameTable, name: Text)
    requires NoNul(name) && WellFormedName(name) && HEADER_SIZE <= at
    requires NameWire(at, table, name).Wired?
    requires at + |NameWire(at, table, name).bytes| <= |b|
    requires b[at..at + |NameWire(at, table, name).bytes|] == NameWire(at, table, name).bytes
    requires EntriesOkFor(b, table, name, at)
    ensures EntriesFrom(b, table, NameWire(at, table, name).table, at)
    decreases |name|
  {
    if name != [] && !Compressible(table, name) {
      OwnEntry(b, at, table, name);
      FirstLabel(name);
      var c := Unescape(name).value;
      var next, table' := at + 1 + |c.text|, Enter(table, name, at);
      LabelWritten(b, at, table, name, c.text, c.rest, next, table');
      NameEntries(b, next, table', c.rest);
      EntriesFromStep(b, table, table', NameWire(next, table', c.rest).table, name, at, next);
    }
  }

  lemma OwnEntry(b: Text, at: nat, table: NameTable, name: Text)
    requires NoNul(name) && WellFormedName(name) && HEADER_SIZE <= at && name != [] && !Compressible(table, name)
    requires NameWire(at, table, name).Wired?
    requires at + |NameWire(at, table, name).bytes| <= |b|
    requires b[at..at + |NameWire(at, table, name).bytes|] == NameWire(at, table, name).bytes
    requires EntriesOkFor(b, table, name, at)
    ensures EntryFrom(b, name, at, at)
  {
    NameReadsBack(b, at, table, name);
  }

  lemma EntriesFromStep(b: Text, table: NameTable, table': NameTable, last: NameTable, name: Text, at: nat, next: nat)
    requires EntriesFrom(b, table', last, next) && table' == Enter(table, name, at) && at <= next
    requires name !in table ==> EntryFrom(b, name, at, at)
    ensures EntriesFrom(b, table, last, at)
  {
    forall n
      ensures EntryKept(b, table, last, at, n)
    {
      assert EntryKept(b, table', last, next, n);
    }
  }

  /** Appending a name keeps the whole table sound, and the name can be read at its offset. */
  lemma NameAppended(b: Text, table: NameTable, name: Text)
    requires NoNul(name) && WellFormedName(name) && HEADER_SIZE <= |b| && TableOk(b, table)
    requires NameWire(|b|, table, name).Wired?
    ensures TableOk(b + NameWire(|b|, table, name).bytes, NameWire(|b|, table, name).table)
    ensures ReadsAs(b + NameWire(|b|, table, name).bytes, |b|, table, name, |NameWire(|b|, table, name).bytes|)
  {
    hide NameWire, WellFormedName, ReadLabels, Labels, StepsFor, NoNul, ReadsAs;
    var w := NameWire(|b|, table, name);
    var c := b + w.bytes;
    assert c[|b|..|b| + |w.bytes|] == w.bytes;
    TableOkExtended(b, c, table);
    forall n
      ensures EntryUsable(c, table, name, |b|, n)
    {
      assert n in table ==> EntryOk(b, n, table[n]) && EntryOk(c, n, table[n]);
    }
    NameReadsBack(c, |b|, table, name);
    NameEntries(c, |b|, table, name);
    forall n | n in w.table
      ensures EntryOk(c, n, w.table[n])
    {
      assert EntryKept(c, table, w.table, |b|, n);
    }
  }

  /** A well-formed name can always be written. Without compression it takes one byte more than its text
      and its end; pointers only shorten it. */
  lemma {:induction false} NameLength(at: nat, table: NameTable, name: Text)
    requires WellFormedName(name)
    ensures NameWire(at, table, name).Wired? && |NameWire(at, table, name).bytes| <= |name| + 2
    ensures name == [] ==> |NameWire(at, table, name).bytes| == 1
    decreases |name|
  {
    hide Unescape, WellFormedName;
    if name != [] && !Compressible(table, name) {
      FirstLabel(name);
      var c := Unescape(name).value;
      NameLength(at + 1 + |c.text|, Enter(table, name, at), c.rest);
      NameWireStep(at, table, name, c.text, c.rest);
      if c.rest != [] {
        LabelShrinks(name);
      }
    }
  }

  lemma WiredUnescapes(at: nat, table: NameTable, name: Text)
    requires NameWire(at, table, name).Wired? && name != [] && !Compressible(table, name)
    ensures Unescape(name).Some? && |Unescape(name).value.rest| < |name|
  {
  }

  /** A name that was written can be pointed at from then on; entries are never replaced. */
  lemma {:induction false} EntriesStay(at: nat, table: NameTable, name: Text, n: Text)
    requires NameWire(at, table, name).Wired?
    ensures n in table ==> n in NameWire(at, table, name).table && NameWire(at, table, name).table[n] == table[n]
    ensures n == name != [] && n !in table ==>
              n in NameWire(at, table, name).table && NameWire(at, table, name).table[n] == at
    decreases |name|
  {
    hide NameWire, Unescape;
    if name == [] {
      NameWireEnd(at, table);
    } else if Compressible(table, name) {
      NameWirePointer(at, table, name);
    } else {
      WiredUnescapes(at, table, name);
      var c := Unescape(name).value;
      NameWireStep(at, table, name, c.text, c.rest);
      EntriesStay(at + 1 + |c.text|, Enter(table, name, at), c.rest, n);
    }
  }

  /** The dot after a label is not part of what is left. */
  lemma {:induction false} LexShrinks(name: Text)
    requires Lex(name).Some? && Lex(name).value.rest != []
    ensures |Lex(name).value.text| + 1 + |Lex(name).value.rest| <= |name|
  {
    var t := NextToken(name);
    if t.Char? {
      LexShrinks(name[t.width..]);
    }
  }

  lemma LabelShrinks(name: Text)
    requires Unescape(name).Some? && Unescape(name).value.rest != []
    ensures |Unescape(name).value.text| + 1 + |Unescape(name).value.rest| <= |name|
  {
    LexShrinks(name);
  }
}
