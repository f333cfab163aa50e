/** Simultaneous probe tie-breaking (section 8.2 of RFC 6762): the order of records in avahi-core/rr.c. */
module TieBreak {
  import opened Utf8
  import opened Domain
  import opened Rr
  import opened Lists
  import S = StringList
  import W = RecordWire

  // ---------------------------------------------------------------- lexicographic order

  function Compared(x: int, y: int): int {
    if x == y then 0 else if x < y then -1 else 1
  }

  /** Lexicographic comparison of two sequences that both end with the symbol `end`. */
  function Lexicographic(a: seq<int>, b: seq<int>, end: int): (r: int)
    ensures -1 <= r <= 1
  {
    var x, y := if a == [] then end else a[0], if b == [] then end else b[0];
    if x != y then Compared(x, y)
    else if a == [] || b == [] then 0
    else Lexicographic(a[1..], b[1..], end)
  }

  predicate Lacks(a: seq<int>, end: int) {
    forall i :: 0 <= i < |a| ==> a[i] != end
  }

  lemma {:induction false} LexicographicOpposite(a: seq<int>, b: seq<int>, end: int)
    ensures Lexicographic(a, b, end) == -Lexicographic(b, a, end)
  {
    if a != [] && b != [] {
      LexicographicOpposite(a[1..], b[1..], end);
    }
  }

  lemma {:induction false} LexicographicZero(a: seq<int>, b: seq<int>, end: int)
    requires Lacks(a, end) && Lacks(b, end)
    ensures Lexicographic(a, b, end) == 0 <==> a == b
  {
    if a != [] && b != [] {
      LexicographicZero(a[1..], b[1..], end);
      assert a == [a[0]] + a[1..] && b == [b[0]] + b[1..];
    }
  }

  lemma {:induction false} LexicographicTransitive(a: seq<int>, b: seq<int>, c: seq<int>, end: int)
    requires Lacks(a, end) && Lacks(b, end) && Lacks(c, end)
    requires Lexicographic(a, b, end) <= 0 && Lexicographic(b, c, end) <= 0
    ensures Lexicographic(a, c, end) <= 0
  {
    if a != [] && b != [] && c != [] {
      if a[0] == b[0] == c[0] {
        LexicographicTransitive(a[1..], b[1..], c[1..], end);
      }
    }
  }

  /** A part that ends with a symbol of its own decides first. */
  lemma {:induction false} LexicographicParts(a: seq<int>, b: seq<int>, t: int, u: seq<int>, v: seq<int>, end: int)
    requires Lacks(a, t) && Lacks(b, t)
    ensures Lexicographic(a + ([t] + u), b + ([t] + v), end) ==
            if Lexicographic(a, b, t) != 0 then Lexicographic(a, b, t) else Lexicographic(u, v, end)
  {
    var x, y := a + ([t] + u), b + ([t] + v);
    assert x[0] == if a == [] then t else a[0];
    assert y[0] == if b == [] then t else b[0];
    if a == [] && b == [] {
      assert x[1..] == u && y[1..] == v;
    } else if a != [] && b != [] {
      assert x[1..] == a[1..] + ([t] + u) && y[1..] == b[1..] + ([t] + v);
      LexicographicParts(a[1..], b[1..], t, u, v, end);
    }
  }

  // ---------------------------------------------------------------- the comparisons of the source

  const LAST := 256
  const FIRST := 0
  const NONE := -1

  function Memcmp(a: Text, b: Text): int
    requires |a| == |b|
  {
    Lexicographic(a, b, NONE)
  }

  /** The outcome of a comparison; Aborted: an assertion fails. */
  datatype Comparison = Aborted | Decided(order: int)

  /** What a pointer points at; None is a null pointer. */
  type Pointer = Option<Text>

  /** memcmp; and a shorter text that is the beginning of a longer one counts as the greater one. Both pointers are
      asserted not to be null. */
  method LexicographicalMemcmp(a: Pointer, b: Pointer) returns (r: Comparison)
    ensures r == if a.None? || b.None? then Aborted else Decided(Lexicographic(a.value, b.value, LAST))
  {
    if a.None? || b.None? {
      return Aborted;
    }
    var s, t := a.value, b.value;
    var c := if |s| < |t| then |s| else |t|;
    var m := Memcmp(s[..c], t[..c]);
    CommonFront(s, t, c);
    if m != 0 {
      return Decided(m);
    }
    if |s| == |t| {
      return Decided(0);
    }
    r := Decided(if |s| == c then 1 else -1);
  }

  lemma {:induction false} CommonFront(a: Text, b: Text, c: nat)
    requires c == if |a| < |b| then |a| else |b|
    ensures Lexicographic(a, b, LAST) ==
            if Memcmp(a[..c], b[..c]) != 0 then Memcmp(a[..c], b[..c])
            else if |a| == |b| then 0 else if |a| == c then 1 else -1
  {
    if c > 0 {
      CommonFront(a[1..], b[1..], c - 1);
      assert a[..c][1..] == a[1..][..c - 1] && b[..c][1..] == b[1..][..c - 1];
    }
  }

  /** The order that section 8.2 of RFC 6762 asks for has a text that runs out first be the lesser one. The
      source agrees exactly when neither text is the beginning of the other. */
  lemma {:induction false} ShorterCountsAsGreater(a: Text, b: Text)
    ensures Lexicographic(a, b, LAST) == Lexicographic(a, b, NONE) <==> !(a < b) && !(b < a)
  {
    if a == [] || b == [] {
      assert a < b <==> a == [] && b != [];
      assert b < a <==> b == [] && a != [];
    } else {
      ShorterCountsAsGreater(a[1..], b[1..]);
      if a[0] == b[0] {
        PrefixTail(a, b);
        PrefixTail(b, a);
      }
    }
  }

  lemma PrefixTail(a: Text, b: Text)
    requires a != [] && b != [] && a[0] == b[0]
    ensures a < b <==> a[1..] < b[1..]
  {
    assert a == [a[0]] + a[1..] && b == [b[0]] + b[1..];
    if a[1..] < b[1..] {
      assert b[..|a|] == [b[0]] + b[1..][..|a| - 1];
    }
    if a < b {
      assert b[1..][..|a| - 1] == b[..|a|][1..];
    }
  }

  /** Labels, compared one after the other by strcmp, the shorter name filled up with empty ones. */
  function CompareLabels(a: seq<Text>, b: seq<Text>): (r: int)
    decreases |a| + |b|
  {
    if a == [] && b == [] then 0
    else
      var r := Lexicographic(FirstOf(a), FirstOf(b), FIRST);
      if r != 0 then r else CompareLabels(RestOf(a), RestOf(b))
  }

  function FirstOf(ls: seq<Text>): Text {
    if ls == [] then [] else ls[0]
  }

  function RestOf(ls: seq<Text>): seq<Text> {
    if ls == [] then [] else ls[1..]
  }

  lemma LabelAfterLabel(s: Text)
    requires NoNul(s) && WellFormedName(s)
    ensures Unescape(s).Some? && WellFormedName(Unescape(s).value.rest) && NoNul(Unescape(s).value.rest)
    ensures Unescape(s).value.text == FirstOf(Labels(s)) && Labels(Unescape(s).value.rest) == RestOf(Labels(s))
    ensures s != [] ==> |Unescape(s).value.rest| < |s|
    ensures s == [] ==> Labels(s) == []
  {
    hide Unescape, LabelsOf;
    FirstLabel(s);
    var c := Unescape(s).value;
    if c.text != [] {
      assert ([c.text] + Labels(c.rest))[1..] == Labels(c.rest);
    } else {
      assert c.rest == [];
      NoLabels();
    }
    if s == [] {
      NoLabels();
    }
  }

  lemma NoLabels()
    ensures WellFormedName([]) && Labels([]) == []
  {
  }

  /** avahi_binary_domain_cmp */
  method BinaryDomainCmp(a: Text, b: Text) returns (r: int)
    requires NoNul(a) && NoNul(b) && WellFormedName(a) && WellFormedName(b)
    ensures r == CompareLabels(Labels(a), Labels(b))
  {
    hide WellFormedName, Labels, Unescape;
    if a == b {
      SameLabels(Labels(a));
      return 0;
    }
    var p, q := a, b;
    while true
      invariant NoNul(p) && NoNul(q) && WellFormedName(p) && WellFormedName(q) && (p != [] || q != [])
      invariant CompareLabels(Labels(a), Labels(b)) == CompareLabels(Labels(p), Labels(q))
      decreases |p| + |q|
    {
      LabelAfterLabel(p);
      LabelAfterLabel(q);
      var ca := UnescapeLabel(p);
      var cb := UnescapeLabel(q);
      r := Lexicographic(ca.value.text, cb.value.text, FIRST);
      LabelsStep(Labels(p), Labels(q));
      if r != 0 {
        return;
      }
      p, q := ca.value.rest, cb.value.rest;
      if p == [] && q == [] {
        LabelAfterLabel(p);
        return 0;
      }
    }
  }

  lemma {:induction false} SameLabels(ls: seq<Text>)
    ensures CompareLabels(ls, ls) == 0
  {
    if ls != [] {
      LexicographicOpposite(ls[0], ls[0], FIRST);
      SameLabels(ls[1..]);
    }
  }

  lemma LabelsStep(a: seq<Text>, b: seq<Text>)
    ensures CompareLabels(a, b) == var r := Lexicographic(FirstOf(a), FirstOf(b), FIRST);
                                   if r != 0 then r else CompareLabels(RestOf(a), RestOf(b))
  {
  }

  // ---------------------------------------------------------------- the order of records

  function DomainRank(ls: seq<Text>): seq<int> {
    if ls == [] then [] else ls[0] + ([FIRST] + DomainRank(ls[1..]))
  }

  /** The symbols that records are compared by, one after the other. */
  function DataRank(d: Rdata): seq<int>
    requires d.Ptr? || d.Srv? ==> WellFormedName(d.target)
  {
    match d
    case Ptr(target) => DomainRank(Labels(target))
    case Srv(p, w, port, target) => [p] + ([w] + ([port] + DomainRank(Labels(target))))
    case Hinfo(cpu, os) => cpu + ([FIRST] + (os + ([FIRST] + [])))
    case Txt(strings) => S.Encode(Reversed(strings)) + ([LAST] + [])
    case A(address) => address
    case Aaaa(address) => address
    case Generic(data) => data + ([LAST] + [])
  }

  predicate Comparable(r: Record) {
    RecordTyped(r) && RecordWellFormed(r)
  }

  function Rank(r: Record): seq<int>
    requires Comparable(r)
  {
    [r.key.clazz] + ([r.key.kind] + DataRank(r.data))
  }

  function Order(a: Record, b: Record): int
    requires Comparable(a) && Comparable(b)
  {
    Lexicographic(Rank(a), Rank(b), NONE)
  }

  lemma SymbolFirst(x: int, y: int, u: seq<int>, v: seq<int>, end: int)
    ensures Lexicographic([x] + u, [y] + v, end) == if x != y then Compared(x, y) else Lexicographic(u, v, end)
  {
    assert ([x] + u)[1..] == u && ([y] + v)[1..] == v;
  }

  /** The first place where two sequences differ decides; where one of them is over its end symbol does. */
  lemma {:induction false} FirstDifference(a: seq<int>, b: seq<int>, i: nat, end: int)
    requires i <= |a| && i <= |b| && a[..i] == b[..i]
    ensures i < |a| && i < |b| && a[i] < b[i] ==> Lexicographic(a, b, end) == -1
    ensures i == |a| < |b| ==> if end < b[i] then Lexicographic(a, b, end) == -1
              else if end > b[i] then Lexicographic(a, b, end) == 1 else true
    decreases i
  {
    if i > 0 {
      assert a[0] == a[..i][0] == b[..i][0] == b[0];
      assert a[1..][..i - 1] == a[..i][1..] && b[1..][..i - 1] == b[..i][1..];
      FirstDifference(a[1..], b[1..], i - 1, end);
    }
  }

  /** Records are compared by class, then by type, then by their data; SRV data by priority, then by weight, then by
      port. */
  lemma NumbersDecide(a: Record, b: Record)
    requires Comparable(a) && Comparable(b)
    ensures a.key.clazz < b.key.clazz ==> Order(a, b) < 0
    ensures a.key.clazz == b.key.clazz && a.key.kind < b.key.kind ==> Order(a, b) < 0
    ensures a.key.clazz == b.key.clazz && a.key.kind == b.key.kind ==>
              && Order(a, b) == Lexicographic(DataRank(a.data), DataRank(b.data), NONE)
              && (a.data.Srv? ==> SrvDecided(a.data, b.data, Order(a, b)))
  {
    hide WellFormedName, DomainRank, Lexicographic;
    var x, y := DataRank(a.data), DataRank(b.data);
    SymbolFirst(a.key.clazz, b.key.clazz, [a.key.kind] + x, [b.key.kind] + y, NONE);
    SymbolFirst(a.key.kind, b.key.kind, x, y, NONE);
    if a.data.Srv? && b.data.Srv? {
      var u, v := DomainRank(Labels(a.data.target)), DomainRank(Labels(b.data.target));
      SymbolFirst(a.data.priority, b.data.priority, [a.data.weight] + ([a.data.port] + u),
                  [b.data.weight] + ([b.data.port] + v), NONE);
      SymbolFirst(a.data.weight, b.data.weight, [a.data.port] + u, [b.data.port] + v, NONE);
      SymbolFirst(a.data.port, b.data.port, u, v, NONE);
    }
  }

  predicate SrvDecided(a: Rdata, b: Rdata, order: int)
    requires a.Srv?
  {
    && b.Srv?
    && (a.priority < b.priority ==> order < 0)
    && (a.priority == b.priority && a.weight < b.weight ==> order < 0)
    && (a.priority == b.priority && a.weight == b.weight && a.port < b.port ==> order < 0)
  }

  /** Names are compared label by label: the first that differs decides, by its first different byte; a label that is
      the beginning of the other one is the lesser, and so is a name. */
  lemma {:induction false} LabelsDecide(a: seq<Text>, b: seq<Text>, i: nat, j: nat)
    requires i <= |a| && i < |b| && a[..i] == b[..i] && NoNuls(a) && NoNuls(b)
    requires i < |a| ==> j <= |a[i]| && j < |b[i]| && a[i][..j] == b[i][..j] && (j == |a[i]| || a[i][j] < b[i][j])
    ensures CompareLabels(a, b) < 0
    decreases i
  {
    if i > 0 {
      assert a[0] == a[..i][0] == b[..i][0] == b[0];
      assert a[1..][..i - 1] == a[..i][1..] && b[1..][..i - 1] == b[..i][1..];
      LexicographicZero(a[0], b[0], FIRST);
      LabelsDecide(a[1..], b[1..], i - 1, j);
    } else if a != [] {
      FirstDifference(a[0], b[0], j, FIRST);
    } else {
      FirstDifference([], b[0], 0, FIRST);
    }
  }

  predicate NoNuls(ls: seq<Text>) {
    forall i :: 0 <= i < |ls| ==> ls[i] != [] && NoNul(ls[i])
  }

  lemma {:induction false} CompareLabelsRanks(a: seq<Text>, b: seq<Text>)
    requires NoNuls(a) && NoNuls(b)
    ensures CompareLabels(a, b) == Lexicographic(DomainRank(a), DomainRank(b), NONE)
    decreases |a| + |b|
  {
    if a != [] && b != [] {
      LexicographicParts(a[0], b[0], FIRST, DomainRank(a[1..]), DomainRank(b[1..]), NONE);
      CompareLabelsRanks(a[1..], b[1..]);
    } else if a != [] {
      assert DomainRank(a)[0] == a[0][0];
    } else if b != [] {
      assert DomainRank(b)[0] == b[0][0];
    }
  }

  lemma NameRanks(s: Text, t: Text)
    requires NoNul(s) && NoNul(t) && WellFormedName(s) && WellFormedName(t)
    ensures CompareLabels(Labels(s), Labels(t)) == Lexicographic(DomainRank(Labels(s)), DomainRank(Labels(t)), NONE)
  {
    hide LabelsOf;
    LabelsAreProper(s);
    LabelsAreProper(t);
    CompareLabelsRanks(Labels(s), Labels(t));
  }

  method Uint16Cmp(a: nat, b: nat) returns (r: int)
    ensures r == Compared(a, b)
  {
    r := if a == b then 0 else if a < b then -1 else 1;
  }

  /** Generic data without a byte: avahi_record_new and parse_rdata leave a null pointer there. */
  predicate EmptyData(r: Record) {
    r.data.Generic? && r.data.data == []
  }

  /** The comparison of two records comes to a null pointer. */
  predicate Trips(a: Record, b: Record) {
    a.key.clazz == b.key.clazz && a.key.kind == b.key.kind && (EmptyData(a) || EmptyData(b))
  }

  /** avahi_record_lexicographical_compare is the lexicographic order of what records are made of. It aborts exactly for
      two records of one class and type one of which has empty generic data, unless they are the same object. */
  method RecordLexicographicalCompare(a: Record, b: Record, same: bool) returns (r: Comparison)
    requires Comparable(a) && Comparable(b) && (same ==> a == b)
    ensures r == if !same && Trips(a, b) then Aborted else Decided(Order(a, b))
  {
    hide DataRank, WellFormedName;
    SymbolFirst(a.key.clazz, b.key.clazz, [a.key.kind] + DataRank(a.data), [b.key.kind] + DataRank(b.data), NONE);
    SymbolFirst(a.key.kind, b.key.kind, DataRank(a.data), DataRank(b.data), NONE);
    if same {
      LexicographicOpposite(Rank(a), Rank(b), NONE);
      return Decided(0);
    }
    var c := Uint16Cmp(a.key.clazz, b.key.clazz);
    if c != 0 {
      return Decided(c);
    }
    c := Uint16Cmp(a.key.kind, b.key.kind);
    if c != 0 {
      return Decided(c);
    }
    r := CompareData(a.data, b.data);
  }

  predicate SameKind(a: Rdata, b: Rdata) {
    match a
    case Ptr(s) => b.Ptr? && NoNul(s) && NoNul(b.target) && WellFormedName(s) && WellFormedName(b.target)
    case Srv(_, _, _, s) => b.Srv? && NoNul(s) && NoNul(b.target) && WellFormedName(s) && WellFormedName(b.target)
    case Hinfo(cpu, os) => b.Hinfo? && NoNul(cpu) && NoNul(os) && NoNul(b.cpu) && NoNul(b.os)
    case Txt(_) => b.Txt?
    case A(s) => b.A? && |s| == |b.address|
    case Aaaa(s) => b.Aaaa? && |s| == |b.address|
    case Generic(_) => b.Generic?
  }

  /** Where generic data is. */
  function GenericData(data: Text): Pointer {
    if data == [] then None else Some(data)
  }

  /** The data of two records of one type. */
  method CompareData(a: Rdata, b: Rdata) returns (r: Comparison)
    requires SameKind(a, b)
    ensures r == if a.Generic? && (a.data == [] || b.data == []) then Aborted
                 else Decided(Lexicographic(DataRank(a), DataRank(b), NONE))
  {
    hide WellFormedName, Lexicographic, Labels, S.Encode;
    var c;
    match a {
      case Ptr(s) =>
        NameRanks(s, b.target);
        c := BinaryDomainCmp(s, b.target);
        r := Decided(c);
      case Srv(p, w, port, s) =>
        c := CompareSrv(a, b);
        r := Decided(c);
      case Hinfo(cpu, os) =>
        LexicographicParts(cpu, b.cpu, FIRST, os + ([FIRST] + []), b.os + ([FIRST] + []), NONE);
        LexicographicParts(os, b.os, FIRST, [], [], NONE);
        NothingCompared(NONE);
        c := Lexicographic(cpu, b.cpu, FIRST);
        if c == 0 {
          c := Lexicographic(os, b.os, FIRST);
        }
        r := Decided(c);
      case Txt(strings) =>
        LexicographicParts(S.Encode(Reversed(strings)), S.Encode(Reversed(b.strings)), LAST, [], [], NONE);
        NothingCompared(NONE);
        r := LexicographicalMemcmp(Some(S.Encode(Reversed(strings))), Some(S.Encode(Reversed(b.strings))));
      case A(s) =>
        r := Decided(Memcmp(s, b.address));
      case Aaaa(s) =>
        r := Decided(Memcmp(s, b.address));
      case Generic(data) =>
        LexicographicParts(data, b.data, LAST, [], [], NONE);
        NothingCompared(NONE);
        r := LexicographicalMemcmp(GenericData(data), GenericData(b.data));
    }
  }

  lemma NothingCompared(end: int)
    ensures Lexicographic([], [], end) == 0
  {
  }

  method CompareSrv(a: Rdata, b: Rdata) returns (r: int)
    requires a.Srv? && SameKind(a, b)
    ensures r == Lexicographic(DataRank(a), DataRank(b), NONE)
  {
    hide WellFormedName, Lexicographic, Labels;
    var s, t := DomainRank(Labels(a.target)), DomainRank(Labels(b.target));
    SymbolFirst(a.priority, b.priority, [a.weight] + ([a.port] + s), [b.weight] + ([b.port] + t), NONE);
    SymbolFirst(a.weight, b.weight, [a.port] + s, [b.port] + t, NONE);
    SymbolFirst(a.port, b.port, s, t, NONE);
    NameRanks(a.target, b.target);
    r := Uint16Cmp(a.priority, b.priority);
    if r == 0 {
      r := Uint16Cmp(a.weight, b.weight);
    }
    if r == 0 {
      r := Uint16Cmp(a.port, b.port);
    }
    if r == 0 {
      r := BinaryDomainCmp(a.target, b.target);
    }
  }

  // ---------------------------------------------------------------- a total order

  lemma {:induction false} DomainRankNatural(ls: seq<Text>)
    ensures Lacks(DomainRank(ls), NONE)
  {
    if ls != [] {
      DomainRankNatural(ls[1..]);
    }
  }

  lemma RankNatural(r: Record)
    requires Comparable(r)
    ensures Lacks(Rank(r), NONE)
  {
    hide WellFormedName, Labels, S.Encode;
    if r.data.Ptr? || r.data.Srv? {
      DomainRankNatural(Labels(r.data.target));
    }
  }

  /** Whichever of two hosts compares, they agree on which record is the greater one. */
  lemma OrderOpposite(a: Record, b: Record)
    requires Comparable(a) && Comparable(b)
    ensures Order(a, b) == -Order(b, a) && (Order(a, b) == 0 <==> Rank(a) == Rank(b))
  {
    hide Comparable, Rank;
    LexicographicOpposite(Rank(a), Rank(b), NONE);
    RankNatural(a);
    RankNatural(b);
    LexicographicZero(Rank(a), Rank(b), NONE);
  }

  lemma OrderTransitive(a: Record, b: Record, c: Record)
    requires Comparable(a) && Comparable(b) && Comparable(c) && Order(a, b) <= 0 && Order(b, c) <= 0
    ensures Order(a, c) <= 0
  {
    hide Comparable, Rank;
    RankNatural(a);
    RankNatural(b);
    RankNatural(c);
    LexicographicTransitive(Rank(a), Rank(b), Rank(c), NONE);
  }

  // ---------------------------------------------------------------- what the order tells apart

  lemma {:induction false} CompareLabelsZero(a: seq<Text>, b: seq<Text>)
    requires NoNuls(a) && NoNuls(b) && CompareLabels(a, b) == 0
    ensures a == b
    decreases |a| + |b|
  {
    if a != [] || b != [] {
      LexicographicZero(FirstOf(a), FirstOf(b), FIRST);
      CompareLabelsZero(RestOf(a), RestOf(b));
      assert a != [] ==> a == [a[0]] + a[1..];
      assert b != [] ==> b == [b[0]] + b[1..];
    }
  }

  lemma NamesTold(s: Text, t: Text)
    requires NoNul(s) && NoNul(t) && WellFormedName(s) && WellFormedName(t)
    requires Lexicographic(DomainRank(Labels(s)), DomainRank(Labels(t)), NONE) == 0
    ensures Labels(s) == Labels(t)
  {
    hide LabelsOf;
    NameRanks(s, t);
    LabelsAreProper(s);
    LabelsAreProper(t);
    CompareLabelsZero(Labels(s), Labels(t));
  }

  lemma StringsTold(a: seq<Text>, b: seq<Text>)
    requires S.Encode(Reversed(a)) == S.Encode(Reversed(b))
    requires (forall i :: 0 <= i < |a| ==> S.Fits(a[i])) && forall i :: 0 <= i < |b| ==> S.Fits(b[i])
    ensures a == b
  {
    hide S.Encode, S.Decode, Reversed, S.Fits;
    StringsBack(a);
    StringsBack(b);
    ReversedTwice(a);
    ReversedTwice(b);
  }

  lemma StringsBack(ts: seq<Text>)
    requires forall i :: 0 <= i < |ts| ==> S.Fits(ts[i])
    ensures S.Decode(S.Encode(Reversed(ts))) == S.Strings(Reversed(ts))
  {
    hide S.Encode, S.Decode, Reversed, S.Clean;
    FittingReversed(ts);
    S.DecodeEncode(Reversed(ts));
    S.CleanUnchanged(Reversed(ts));
  }

  lemma FittingReversed(ts: seq<Text>)
    requires forall i :: 0 <= i < |ts| ==> S.Fits(ts[i])
    ensures forall i :: 0 <= i < |Reversed(ts)| ==> S.Fits(Reversed(ts)[i])
  {
    hide S.Fits;
    forall i | 0 <= i < |Reversed(ts)|
      ensures S.Fits(Reversed(ts)[i])
    {
      ReversedAt(ts, i);
    }
  }

  /** Records with the same key that the order does not tell apart are the same record, whatever their TTL. */
  lemma OrderZeroSame(a: Record, b: Record)
    requires Comparable(a) && Comparable(b) && RecordValid(a) && RecordValid(b)
    requires ClassOf(a.key) == ClassOf(b.key) && Order(a, b) == 0
    ensures RecordClassOf(a) == RecordClassOf(b)
  {
    hide WellFormedName, Labels, S.Encode, NameOk;
    OrderOpposite(a, b);
    SymbolFirst(a.key.clazz, b.key.clazz, [a.key.kind] + DataRank(a.data), [b.key.kind] + DataRank(b.data), NONE);
    SymbolFirst(a.key.kind, b.key.kind, DataRank(a.data), DataRank(b.data), NONE);
    DataTold(a.data, b.data);
  }

  lemma DataTold(a: Rdata, b: Rdata)
    requires SameKind(a, b) && Lexicographic(DataRank(a), DataRank(b), NONE) == 0
    requires a.Txt? ==> forall i :: 0 <= i < |a.strings| ==> S.Fits(a.strings[i])
    requires b.Txt? ==> forall i :: 0 <= i < |b.strings| ==> S.Fits(b.strings[i])
    ensures if a.Ptr? then Labels(a.target) == Labels(b.target)
            else if a.Srv? then Labels(a.target) == Labels(b.target) && a.(target := []) == b.(target := [])
            else a == b
  {
    hide WellFormedName, Lexicographic, Labels, S.Encode;
    match a {
      case Ptr(s) =>
        NamesTold(s, b.target);
      case Srv(p, w, port, s) =>
        var u, v := DomainRank(Labels(s)), DomainRank(Labels(b.target));
        SymbolFirst(p, b.priority, [w] + ([port] + u), [b.weight] + ([b.port] + v), NONE);
        SymbolFirst(w, b.weight, [port] + u, [b.port] + v, NONE);
        SymbolFirst(port, b.port, u, v, NONE);
        NamesTold(s, b.target);
      case Hinfo(cpu, os) =>
        LexicographicParts(cpu, b.cpu, FIRST, os + ([FIRST] + []), b.os + ([FIRST] + []), NONE);
        LexicographicParts(os, b.os, FIRST, [], [], NONE);
        LexicographicZero(cpu, b.cpu, FIRST);
        LexicographicZero(os, b.os, FIRST);
      case Txt(strings) =>
        LexicographicParts(S.Encode(Reversed(strings)), S.Encode(Reversed(b.strings)), LAST, [], [], NONE);
        LexicographicZero(S.Encode(Reversed(strings)), S.Encode(Reversed(b.strings)), LAST);
        StringsTold(strings, b.strings);
      case A(s) =>
        LexicographicZero(s, b.address, NONE);
      case Aaaa(s) =>
        LexicographicZero(s, b.address, NONE);
      case Generic(data) =>
        LexicographicParts(data, b.data, LAST, [], [], NONE);
        LexicographicZero(data, b.data, LAST);
    }
  }

  // ---------------------------------------------------------------- incoming probes

  /** An entry of ours for the name that is probed for. */
  datatype Claim = Claim(record: Record, probing: bool, dead: bool)

  predicate AllComparable(claims: seq<Claim>) {
    forall i :: 0 <= i < |claims| ==> Comparable(claims[i].record)
  }

  predicate Contests(c: Claim) {
    c.probing && !c.dead
  }

  /** A probe makes us give way if it is for none of our records, and greater than all we probe for. */
  predicate Withdraws(claims: seq<Claim>, r: Record)
    requires AllComparable(claims) && Comparable(r)
  {
    && (forall i :: 0 <= i < |claims| && !claims[i].dead ==> Order(claims[i].record, r) != 0)
    && (forall i :: 0 <= i < |claims| && Contests(claims[i]) ==> Order(claims[i].record, r) < 0)
    && exists i :: 0 <= i < |claims| && Contests(claims[i])
  }

  /** The comparison with this entry aborts, and no entry before it ends the search. */
  ghost predicate TrippedAt(claims: seq<Claim>, r: Record, i: int)
    requires AllComparable(claims) && Comparable(r)
  {
    && 0 <= i < |claims| && !claims[i].dead && Trips(claims[i].record, r)
    && forall k :: 0 <= k < i && !claims[k].dead ==> Order(claims[k].record, r) != 0
  }

  ghost predicate Tripped(claims: seq<Claim>, r: Record)
    requires AllComparable(claims) && Comparable(r)
  {
    exists i :: TrippedAt(claims, r, i)
  }

  /** What a probe makes of a host: it goes on, withdraws its entries, or dies of a failing assertion. */
  datatype Reaction = Stays | Yields | Dies

  ghost function ReactionTo(claims: seq<Claim>, r: Record): Reaction
    requires AllComparable(claims) && Comparable(r)
  {
    if Tripped(claims, r) then Dies else if Withdraws(claims, r) then Yields else Stays
  }

  /** incoming_probe, up to the withdrawal itself. The record was just read from a packet, so it is no entry's object.
      */
  method IncomingProbe(claims: seq<Claim>, r: Record) returns (x: Reaction)
    requires AllComparable(claims) && Comparable(r)
    ensures x == ReactionTo(claims, r)
    // it withdraws where some live entry is probed for, all of these are the lesser, and no live entry is the same
    ensures x.Yields? <==>
              && !x.Dies? && (forall i :: 0 <= i < |claims| && !claims[i].dead ==> Order(claims[i].record, r) != 0)
              && (forall i :: 0 <= i < |claims| && !claims[i].dead && claims[i].probing ==>
                    Order(claims[i].record, r) < 0)
              && exists i :: 0 <= i < |claims| && !claims[i].dead && claims[i].probing
  {
    hide Comparable, Order, Trips;
    var ours, won, lost := false, false, false;
    for i := 0 to |claims|
      invariant !ours
      invariant forall k :: 0 <= k < i && !claims[k].dead ==>
                  Order(claims[k].record, r) != 0 && !Trips(claims[k].record, r)
      invariant won <==> exists k :: 0 <= k < i && Contests(claims[k]) && Order(claims[k].record, r) > 0
      invariant lost <==> exists k :: 0 <= k < i && Contests(claims[k]) && Order(claims[k].record, r) < 0
    {
      var c := claims[i];
      if c.dead {
        continue;
      }
      var cmp := RecordLexicographicalCompare(c.record, r, false);
      if cmp.Aborted? {
        assert TrippedAt(claims, r, i);
        return Dies;
      }
      if cmp.order == 0 {
        ours := true;
        break;
      }
      if c.probing {
        assert Contests(claims[i]);
        if cmp.order > 0 {
          won := true;
        } else {
          lost := true;
        }
      }
    }
    x := if !ours && !won && lost then Yields else Stays;
  }

  /** A probe with empty generic data is the death of every host that has a live entry for its key, whatever that
      says. */
  lemma EmptyProbe(claims: seq<Claim>, r: Record, i: nat)
    requires AllComparable(claims) && Comparable(r) && i < |claims| && !claims[i].dead
    requires forall k :: 0 <= k < |claims| ==> claims[k].record.key.clazz == r.key.clazz
    requires forall k :: 0 <= k < |claims| ==> claims[k].record.key.kind == r.key.kind
    requires EmptyData(r)
    ensures ReactionTo(claims, r) == Dies
  {
    hide Comparable, Order;
    if forall k :: 0 <= k < i && !claims[k].dead ==> Order(claims[k].record, r) != 0 {
      assert TrippedAt(claims, r, i);
    } else {
      var k :| 0 <= k < i && !claims[k].dead && Order(claims[k].record, r) == 0;
      EmptyProbe(claims, r, k);
    }
  }

  /** For every entry with generic data there is such a probe, and it is a record that can be sent and received. */
  lemma DeadlyProbe(mine: Record, probing: bool)
    requires W.Proper(mine) && mine.data.Generic?
    ensures var r := mine.(data := Generic([]));
            W.Proper(r) && ReactionTo([Claim(mine, probing, false)], r) == Dies
  {
    hide WellFormedName, NameOk;
    EmptyProbe([Claim(mine, probing, false)], mine.(data := Generic([])), 0);
  }

  // ---------------------------------------------------------------- two hosts probe at the same time

  predicate AllRecords(rs: seq<Record>) {
    forall i :: 0 <= i < |rs| ==> Comparable(rs[i])
  }

  function KeyOf(r: Record): KeyClass
    requires Comparable(r)
  {
    ClassOf(r.key)
  }

  /** The entries that are looked up by the key of a probe: those of the same name, class and type. */
  function LookedUp(rs: seq<Record>, k: KeyClass): (claims: seq<Claim>)
    requires AllRecords(rs)
    ensures AllComparable(claims)
  {
    if rs == [] then []
    else
      var front, r := rs[..|rs| - 1], rs[|rs| - 1];
      LookedUp(front, k) + if KeyOf(r) == k then [Claim(r, true, false)] else []
  }

  lemma {:induction false} LookedUpOnly(rs: seq<Record>, k: KeyClass)
    requires AllRecords(rs)
    ensures var claims := LookedUp(rs, k);
            forall c :: c in claims ==> Contests(c) && c.record in rs && Comparable(c.record) && KeyOf(c.record) == k
  {
    hide Comparable, KeyOf;
    if rs != [] {
      LookedUpOnly(rs[..|rs| - 1], k);
    }
  }

  lemma {:induction false} LookedUpAll(rs: seq<Record>, k: KeyClass, i: nat)
    requires AllRecords(rs) && i < |rs| && KeyOf(rs[i]) == k
    ensures Claim(rs[i], true, false) in LookedUp(rs, k)
  {
    hide Comparable, KeyOf;
    if i < |rs| - 1 {
      LookedUpAll(rs[..|rs| - 1], k, i);
    }
  }

  /** What the j-th probe of theirs makes of a host that probes for `mine`. */
  ghost function At(mine: seq<Record>, theirs: seq<Record>, j: nat): Reaction
    requires AllRecords(mine) && AllRecords(theirs) && j < |theirs|
  {
    ReactionTo(LookedUp(mine, KeyOf(theirs[j])), theirs[j])
  }

  /** The probes of theirs come one after the other; whatever is not survived, or withdrawn from, ends the matter. */
  ghost predicate Ends(mine: seq<Record>, theirs: seq<Record>, j: int, x: Reaction)
    requires AllRecords(mine) && AllRecords(theirs)
  {
    0 <= j < |theirs| && At(mine, theirs, j) == x && forall k :: 0 <= k < j ==> At(mine, theirs, k) == Stays
  }

  ghost predicate GivesWay(mine: seq<Record>, theirs: seq<Record>)
    requires AllRecords(mine) && AllRecords(theirs)
  {
    exists j :: Ends(mine, theirs, j, Yields)
  }

  ghost predicate Aborts(mine: seq<Record>, theirs: seq<Record>)
    requires AllRecords(mine) && AllRecords(theirs)
  {
    exists j :: Ends(mine, theirs, j, Dies)
  }

  lemma {:induction false} SomethingEnds(mine: seq<Record>, theirs: seq<Record>, j: nat)
    requires AllRecords(mine) && AllRecords(theirs) && j < |theirs| && At(mine, theirs, j) != Stays
    ensures exists k :: 0 <= k <= j && At(mine, theirs, k) != Stays && Ends(mine, theirs, k, At(mine, theirs, k))
  {
    hide At, Comparable;
    if forall k :: 0 <= k < j ==> At(mine, theirs, k) == Stays {
      assert Ends(mine, theirs, j, At(mine, theirs, j));
    } else {
      var k :| 0 <= k < j && At(mine, theirs, k) != Stays;
      SomethingEnds(mine, theirs, k);
    }
  }

  /** At a key that both hosts probe for, one of them has a record with empty generic data. */
  ghost predicate EmptyAt(mine: seq<Record>, theirs: seq<Record>, i: int, j: int)
    requires AllRecords(mine) && AllRecords(theirs)
  {
    && 0 <= i < |mine| && 0 <= j < |theirs| && KeyOf(mine[i]) == KeyOf(theirs[j])
    && (EmptyData(mine[i]) || EmptyData(theirs[j]))
  }

  ghost predicate EmptyInCommon(mine: seq<Record>, theirs: seq<Record>)
    requires AllRecords(mine) && AllRecords(theirs)
  {
    exists i, j :: EmptyAt(mine, theirs, i, j)
  }

  ghost predicate ProbesFor(rs: seq<Record>, k: KeyClass)
    requires AllRecords(rs)
  {
    exists i :: 0 <= i < |rs| && KeyOf(rs[i]) == k
  }

  /** The record is the greatest one of its key. */
  ghost predicate Greatest(rs: seq<Record>, r: Record)
    requires AllRecords(rs) && Comparable(r)
  {
    r in rs && forall i :: 0 <= i < |rs| ==> NotGreater(rs, i, r)
  }

  ghost predicate NotGreater(rs: seq<Record>, i: int, r: Record)
    requires AllRecords(rs) && Comparable(r) && 0 <= i < |rs|
  {
    KeyOf(rs[i]) == KeyOf(r) ==> Order(rs[i], r) <= 0
  }

  /** At one key: the greatest record of theirs is greater than the greatest one of mine. */
  ghost predicate Outbid(mine: seq<Record>, theirs: seq<Record>, k: KeyClass)
    requires AllRecords(mine) && AllRecords(theirs)
  {
    exists g, h :: g in mine && h in theirs && OutbidBy(mine, theirs, k, g, h)
  }

  ghost predicate OutbidBy(mine: seq<Record>, theirs: seq<Record>, k: KeyClass, g: Record, h: Record)
    requires AllRecords(mine) && AllRecords(theirs) && g in mine && h in theirs
  {
    KeyOf(g) == KeyOf(h) == k && Greatest(mine, g) && Greatest(theirs, h) && Order(g, h) < 0
  }

  lemma {:induction false} HasGreatest(rs: seq<Record>, k: KeyClass) returns (g: Record)
    requires AllRecords(rs) && ProbesFor(rs, k)
    ensures g in rs && KeyOf(g) == k && Greatest(rs, g)
  {
    hide Comparable, Order, KeyOf;
    var front, r := rs[..|rs| - 1], rs[|rs| - 1];
    OrderOpposite(r, r);
    if !ProbesFor(front, k) {
      var i :| 0 <= i < |rs| && KeyOf(rs[i]) == k;
      assert forall n :: 0 <= n < |front| ==> KeyOf(front[n]) != k;
      assert i == |front|;
      forall i | 0 <= i < |rs|
        ensures NotGreater(rs, i, r)
      {
        assert i < |front| ==> rs[i] == front[i];
      }
      return r;
    }
    g := HasGreatest(front, k);
    if KeyOf(r) == k {
      OrderOpposite(g, r);
      if Order(g, r) <= 0 {
        GreaterStill(front, g, r);
        g := r;
      }
    }
    forall i | 0 <= i < |rs|
      ensures NotGreater(rs, i, g)
    {
      assert i < |front| ==> rs[i] == front[i] && NotGreater(front, i, g);
    }
  }

  /** What is not less than the greatest one is not less than any. */
  lemma GreaterStill(rs: seq<Record>, g: Record, r: Record)
    requires AllRecords(rs) && Comparable(g) && Comparable(r) && KeyOf(g) == KeyOf(r) && Order(g, r) <= 0
    requires Greatest(rs, g)
    ensures forall i :: 0 <= i < |rs| ==> NotGreater(rs, i, r)
  {
    hide Comparable, Order, KeyOf;
    forall i | 0 <= i < |rs|
      ensures NotGreater(rs, i, r)
    {
      assert NotGreater(rs, i, g);
      if KeyOf(rs[i]) == KeyOf(r) {
        OrderTransitive(rs[i], g, r);
      }
    }
  }

  /** No record of one host is one of the other. */
  ghost predicate Disjoint(mine: seq<Record>, theirs: seq<Record>)
    requires AllRecords(mine) && AllRecords(theirs)
  {
    forall i, j :: 0 <= i < |mine| && 0 <= j < |theirs| && KeyOf(mine[i]) == KeyOf(theirs[j]) ==>
      Rank(mine[i]) != Rank(theirs[j])
  }

  /** A probe is not survived exactly when it has empty generic data, or a record of its key has. */
  lemma DiesWhereEmpty(mine: seq<Record>, theirs: seq<Record>, j: nat)
    requires AllRecords(mine) && AllRecords(theirs) && Disjoint(mine, theirs) && j < |theirs|
    ensures At(mine, theirs, j) == Dies <==> exists i :: EmptyAt(mine, theirs, i, j)
  {
    hide Comparable, Order, Rank, KeyOf, LookedUp, Disjoint;
    var r := theirs[j];
    var claims := LookedUp(mine, KeyOf(r));
    LookedUpOnly(mine, KeyOf(r));
    if Tripped(claims, r) {
      var c :| TrippedAt(claims, r, c);
      assert claims[c] in claims;
      var i :| 0 <= i < |mine| && mine[i] == claims[c].record;
      assert EmptyAt(mine, theirs, i, j);
    }
    if i :| EmptyAt(mine, theirs, i, j) {
      LookedUpAll(mine, KeyOf(r), i);
      var c :| 0 <= c < |claims| && claims[c] == Claim(mine[i], true, false);
      SameClassAndType(mine[i], r);
      NoneIsOurs(mine, theirs, j);
      assert TrippedAt(claims, r, c);
    }
  }

  /** With no record in common the search goes on to the last entry of the key. */
  lemma NoneIsOurs(mine: seq<Record>, theirs: seq<Record>, j: nat)
    requires AllRecords(mine) && AllRecords(theirs) && Disjoint(mine, theirs) && j < |theirs|
    ensures var claims := LookedUp(mine, KeyOf(theirs[j]));
            forall k :: 0 <= k < |claims| ==> Order(claims[k].record, theirs[j]) != 0
  {
    hide Comparable, Order, Rank, LookedUp;
    var r := theirs[j];
    var claims := LookedUp(mine, KeyOf(r));
    LookedUpOnly(mine, KeyOf(r));
    forall k | 0 <= k < |claims|
      ensures Order(claims[k].record, r) != 0
    {
      assert claims[k] in claims;
      var l :| 0 <= l < |mine| && mine[l] == claims[k].record;
      OrderOpposite(mine[l], r);
    }
  }

  lemma SameClassAndType(a: Record, b: Record)
    requires Comparable(a) && Comparable(b) && KeyOf(a) == KeyOf(b)
    ensures a.key.clazz == b.key.clazz && a.key.kind == b.key.kind
  {
  }

  /** Without empty generic data at a common key both hosts survive. With it each of them dies, or has withdrawn
      before it came to that. */
  lemma EmptyDataAborts(mine: seq<Record>, theirs: seq<Record>)
    requires AllRecords(mine) && AllRecords(theirs) && Disjoint(mine, theirs)
    ensures EmptyInCommon(mine, theirs) ==> Aborts(mine, theirs) != GivesWay(mine, theirs)
    ensures !EmptyInCommon(mine, theirs) ==> !Aborts(mine, theirs)
    ensures EmptyInCommon(mine, theirs) <==> EmptyInCommon(theirs, mine)
  {
    hide Comparable, Order, Rank, KeyOf, At, Disjoint;
    forall j | 0 <= j < |theirs|
      ensures At(mine, theirs, j) == Dies <==> exists i :: EmptyAt(mine, theirs, i, j)
    {
      DiesWhereEmpty(mine, theirs, j);
    }
    assert forall i, j :: EmptyAt(mine, theirs, i, j) <==> EmptyAt(theirs, mine, j, i);
    if i, j :| EmptyAt(mine, theirs, i, j) {
      SomethingEnds(mine, theirs, j);
      assert EmptyAt(theirs, mine, j, i);
    }
  }

  /** A host gives way exactly when it is outbid at some key, if no key in common has empty generic data. */
  lemma GivesWayWhereOutbid(mine: seq<Record>, theirs: seq<Record>)
    requires AllRecords(mine) && AllRecords(theirs) && Disjoint(mine, theirs)
    ensures !EmptyInCommon(mine, theirs) ==> (GivesWay(mine, theirs) <==> exists k :: Outbid(mine, theirs, k))
  {
    hide Comparable, Order, KeyOf, Rank;
    if !EmptyInCommon(mine, theirs) {
      if GivesWay(mine, theirs) {
        var j :| Ends(mine, theirs, j, Yields);
        OutbidWhereWithdrawn(mine, theirs, theirs[j]);
        assert Outbid(mine, theirs, KeyOf(theirs[j]));
      }
      if k :| Outbid(mine, theirs, k) {
        var g, h :| g in mine && h in theirs && OutbidBy(mine, theirs, k, g, h);
        WithdrawnWhereOutbid(mine, theirs, k, g, h);
        var j :| 0 <= j < |theirs| && theirs[j] == h;
        SurvivorYields(mine, theirs, j);
      }
    }
  }

  lemma SurvivorYields(mine: seq<Record>, theirs: seq<Record>, j: nat)
    requires AllRecords(mine) && AllRecords(theirs) && Disjoint(mine, theirs) && !EmptyInCommon(mine, theirs)
    requires j < |theirs| && Withdraws(LookedUp(mine, KeyOf(theirs[j])), theirs[j])
    ensures GivesWay(mine, theirs)
  {
    hide Comparable, Order, KeyOf, Rank, Withdraws, Tripped, EmptyAt;
    forall k | 0 <= k < |theirs|
      ensures At(mine, theirs, k) != Dies
    {
      DiesWhereEmpty(mine, theirs, k);
    }
    SomethingEnds(mine, theirs, j);
  }

  lemma OutbidWhereWithdrawn(mine: seq<Record>, theirs: seq<Record>, r: Record)
    requires AllRecords(mine) && AllRecords(theirs) && r in theirs && Comparable(r)
             && Withdraws(LookedUp(mine, KeyOf(r)), r)
    ensures Outbid(mine, theirs, KeyOf(r))
  {
    hide Comparable, Order, KeyOf, Rank;
    var k := KeyOf(r);
    var claims := LookedUp(mine, k);
    LookedUpOnly(mine, k);
    var c :| 0 <= c < |claims| && Contests(claims[c]);
    assert claims[c] in claims;
    var i :| 0 <= i < |mine| && mine[i] == claims[c].record;
    var g := HasGreatest(mine, k);
    var l :| 0 <= l < |mine| && mine[l] == g;
    LookedUpAll(mine, k, l);
    var j :| 0 <= j < |theirs| && theirs[j] == r;
    var h := HasGreatest(theirs, k);
    assert Claim(g, true, false) in claims;
    assert NotGreater(theirs, j, h);
    LessThrough(g, r, h);
    assert OutbidBy(mine, theirs, k, g, h);
  }

  lemma LessThrough(a: Record, b: Record, c: Record)
    requires Comparable(a) && Comparable(b) && Comparable(c) && Order(a, b) < 0 && Order(b, c) <= 0
    ensures Order(a, c) < 0
  {
    hide Comparable, Order;
    OrderTransitive(a, b, c);
    OrderOpposite(a, c);
    OrderOpposite(a, b);
    if Order(a, c) == 0 {
      OrderTransitive(b, c, a);
    }
  }

  lemma WithdrawnWhereOutbid(mine: seq<Record>, theirs: seq<Record>, k: KeyClass, g: Record, h: Record)
    requires AllRecords(mine) && AllRecords(theirs) && g in mine && h in theirs && OutbidBy(mine, theirs, k, g, h)
    ensures Withdraws(LookedUp(mine, k), h)
  {
    hide Comparable, Order, KeyOf, Rank;
    var claims := LookedUp(mine, k);
    LookedUpOnly(mine, k);
    forall i | 0 <= i < |claims|
      ensures Order(claims[i].record, h) < 0
    {
      assert claims[i] in claims;
      var j :| 0 <= j < |mine| && mine[j] == claims[i].record;
      assert NotGreater(mine, j, g);
      OrderOpposite(g, h);
      OrderOpposite(mine[j], h);
      OrderTransitive(mine[j], g, h);
      if Order(mine[j], h) == 0 {
        OrderTransitive(h, mine[j], g);
      }
    }
    var l :| 0 <= l < |mine| && mine[l] == g;
    LookedUpAll(mine, k, l);
    var c :| 0 <= c < |claims| && claims[c] == Claim(g, true, false);
    assert Contests(claims[c]);
  }

  /** At a key that both hosts probe for, with no record in common, exactly one of them is outbid. */
  lemma OneIsOutbid(mine: seq<Record>, theirs: seq<Record>, k: KeyClass)
    requires AllRecords(mine) && AllRecords(theirs) && Disjoint(mine, theirs) && ProbesFor(mine, k)
             && ProbesFor(theirs, k)
    ensures Outbid(mine, theirs, k) <==> !Outbid(theirs, mine, k)
  {
    hide Comparable, Order, KeyOf, Rank;
    var g := HasGreatest(mine, k);
    var h := HasGreatest(theirs, k);
    var i :| 0 <= i < |mine| && mine[i] == g;
    var j :| 0 <= j < |theirs| && theirs[j] == h;
    OrderOpposite(g, h);
    assert Order(g, h) < 0 ==> OutbidBy(mine, theirs, k, g, h);
    assert Order(g, h) > 0 ==> OutbidBy(theirs, mine, k, h, g);
    if Outbid(mine, theirs, k) && Outbid(theirs, mine, k) {
      var a, b :| a in mine && b in theirs && OutbidBy(mine, theirs, k, a, b);
      var c, d :| c in theirs && d in mine && OutbidBy(theirs, mine, k, c, d);
      NotBoth(mine, theirs, k, a, b, c, d);
    }
  }

  lemma NotBoth(mine: seq<Record>, theirs: seq<Record>, k: KeyClass, a: Record, b: Record, c: Record, d: Record)
    requires AllRecords(mine) && AllRecords(theirs) && a in mine && b in theirs && c in theirs && d in mine
    requires OutbidBy(mine, theirs, k, a, b)
    ensures !OutbidBy(theirs, mine, k, c, d)
  {
    hide Comparable, Order, KeyOf, Rank;
    if OutbidBy(theirs, mine, k, c, d) {
      var i :| 0 <= i < |mine| && mine[i] == d;
      var j :| 0 <= j < |theirs| && theirs[j] == b;
      assert NotGreater(mine, i, a) && NotGreater(theirs, j, c);
      LessThrough(c, d, a);
      LessThrough(a, b, c);
      OrderOpposite(a, c);
    }
  }

  /** When two hosts probe for records of one key at the same time, with none in common, exactly one gives way; unless
      there is empty generic data among them, which is the death of one of them at least. */
  lemma OneGivesWay(mine: seq<Record>, theirs: seq<Record>, k: KeyClass)
    requires AllRecords(mine) && AllRecords(theirs) && Disjoint(mine, theirs) && mine != [] && theirs != []
    requires forall i :: 0 <= i < |mine| ==> KeyOf(mine[i]) == k
    requires forall i :: 0 <= i < |theirs| ==> KeyOf(theirs[i]) == k
    ensures !EmptyInCommon(mine, theirs) ==> (GivesWay(mine, theirs) <==> !GivesWay(theirs, mine))
    ensures (exists i :: 0 <= i < |mine| && EmptyData(mine[i])) ==> Aborts(mine, theirs)
    ensures (exists i :: 0 <= i < |theirs| && EmptyData(theirs[i])) ==> Aborts(theirs, mine)
    ensures EmptyInCommon(mine, theirs) <==> exists r :: (r in mine || r in theirs) && EmptyData(r)
  {
    hide Comparable, Order, KeyOf, Rank, At, Outbid, Disjoint, EmptyData;
    assert KeyOf(mine[0]) == KeyOf(theirs[0]) == k;
    OneIsOutbid(mine, theirs, k);
    DisjointSym(mine, theirs);
    EmptyDataAborts(mine, theirs);
    GivesWayWhereOutbid(mine, theirs);
    GivesWayWhereOutbid(theirs, mine);
    OnlyKeyOutbid(mine, theirs, k);
    OnlyKeyOutbid(theirs, mine, k);
    if i :| 0 <= i < |mine| && EmptyData(mine[i]) {
      assert EmptyAt(mine, theirs, i, 0);
      DiesWhereEmpty(mine, theirs, 0);
      assert Ends(mine, theirs, 0, Dies);
    }
    if i :| 0 <= i < |theirs| && EmptyData(theirs[i]) {
      assert EmptyAt(theirs, mine, i, 0);
      DiesWhereEmpty(theirs, mine, 0);
      assert Ends(theirs, mine, 0, Dies);
    }
  }

  lemma DisjointSym(mine: seq<Record>, theirs: seq<Record>)
    requires AllRecords(mine) && AllRecords(theirs) && Disjoint(mine, theirs)
    ensures Disjoint(theirs, mine)
  {
  }

  lemma OnlyKeyOutbid(mine: seq<Record>, theirs: seq<Record>, k: KeyClass)
    requires AllRecords(mine) && AllRecords(theirs) && forall i :: 0 <= i < |mine| ==> KeyOf(mine[i]) == k
    ensures forall l :: Outbid(mine, theirs, l) ==> l == k
  {
    hide Comparable, Order, KeyOf, Greatest;
  }

  /** For records of several keys each key is decided by itself, if no key in common has empty generic data. Some host
      gives way exactly when they probe for a key in common; and both do exactly when each of them is outbid at one
      key. */
  lemma EachKeyDecides(mine: seq<Record>, theirs: seq<Record>)
    requires AllRecords(mine) && AllRecords(theirs) && Disjoint(mine, theirs)
    ensures !EmptyInCommon(mine, theirs) ==>
              (GivesWay(mine, theirs) || GivesWay(theirs, mine) <==>
                exists k :: ProbesFor(mine, k) && ProbesFor(theirs, k))
    ensures !EmptyInCommon(mine, theirs) ==>
              (GivesWay(mine, theirs) && GivesWay(theirs, mine) <==>
                (exists k :: Outbid(mine, theirs, k)) && (exists k :: Outbid(theirs, mine, k)))
  {
    hide Comparable, Order, KeyOf, Rank, EmptyInCommon;
    EmptyDataAborts(mine, theirs);
    GivesWayWhereOutbid(mine, theirs);
    DisjointSym(mine, theirs);
    GivesWayWhereOutbid(theirs, mine);
    forall k
      ensures Outbid(mine, theirs, k) || Outbid(theirs, mine, k) <==> ProbesFor(mine, k) && ProbesFor(theirs, k)
    {
      if ProbesFor(mine, k) && ProbesFor(theirs, k) {
        OneIsOutbid(mine, theirs, k);
      }
      OutbidProbes(mine, theirs, k);
      OutbidProbes(theirs, mine, k);
    }
  }

  lemma OutbidProbes(mine: seq<Record>, theirs: seq<Record>, k: KeyClass)
    requires AllRecords(mine) && AllRecords(theirs)
    ensures Outbid(mine, theirs, k) ==> ProbesFor(mine, k) && ProbesFor(theirs, k)
  {
    hide Comparable, Order, KeyOf, Greatest;
    if Outbid(mine, theirs, k) {
      var g, h :| g in mine && h in theirs && OutbidBy(mine, theirs, k, g, h);
      var i :| 0 <= i < |mine| && mine[i] == g;
      var j :| 0 <= j < |theirs| && theirs[j] == h;
      assert KeyOf(mine[i]) == k && KeyOf(theirs[j]) == k;
    }
  }

  lemma LoneGreatest(rs: seq<Record>, i: nat)
    requires AllRecords(rs) && i < |rs| && forall j :: 0 <= j < |rs| && j != i ==> KeyOf(rs[j]) != KeyOf(rs[i])
    ensures Greatest(rs, rs[i])
  {
    hide Comparable, Order, KeyOf;
    OrderOpposite(rs[i], rs[i]);
    assert forall j :: 0 <= j < |rs| ==> NotGreater(rs, j, rs[i]);
  }

  /** The first different byte of an address decides. */
  lemma BytesDecide(a: Record, b: Record, i: nat)
    requires Comparable(a) && Comparable(b) && a.key == b.key && (a.data.A? || a.data.Aaaa?) && i < |a.data.address|
    requires a.data.address[..i] == b.data.address[..i] && a.data.address[i] < b.data.address[i]
    ensures Order(a, b) < 0
  {
    hide WellFormedName, Lexicographic;
    NumbersDecide(a, b);
    FirstDifference(a.data.address, b.data.address, i, NONE);
  }

  predicate LessFrom(a: Text, b: Text, i: nat) {
    i < |a| && i < |b| && a[..i] == b[..i] && a[i] < b[i]
  }

  /** Host information is compared by the cpu, then by the operating system. */
  lemma HostsDecide(a: Record, b: Record, i: nat)
    requires Comparable(a) && Comparable(b) && a.key == b.key && a.data.Hinfo?
    ensures LessFrom(a.data.cpu, b.data.cpu, i) ==> Order(a, b) < 0
    ensures a.data.cpu == b.data.cpu && LessFrom(a.data.os, b.data.os, i) ==> Order(a, b) < 0
  {
    hide WellFormedName, Lexicographic;
    NumbersDecide(a, b);
    var Hinfo(cpu, os) := a.data;
    var Hinfo(cpu', os') := b.data;
    LexicographicParts(cpu, cpu', FIRST, os + ([FIRST] + []), os' + ([FIRST] + []), NONE);
    LexicographicParts(os, os', FIRST, [], [], NONE);
    LexicographicZero(cpu, cpu', FIRST);
    if LessFrom(cpu, cpu', i) {
      FirstDifference(cpu, cpu', i, FIRST);
    }
    if LessFrom(os, os', i) {
      FirstDifference(os, os', i, FIRST);
    }
  }

  /** Pointers are compared by the names they point at. */
  lemma NamesDecide(a: Record, b: Record, i: nat, j: nat)
    requires Comparable(a) && Comparable(b) && a.key == b.key && a.data.Ptr?
    requires var la, lb := Labels(a.data.target), Labels(b.data.target);
             && i <= |la| && i < |lb| && la[..i] == lb[..i]
             && (i < |la| ==> j <= |la[i]| && j < |lb[i]| && la[i][..j] == lb[i][..j]
                              && (j == |la[i]| || la[i][j] < lb[i][j]))
    ensures Order(a, b) < 0
  {
    hide WellFormedName, Lexicographic, Labels;
    NumbersDecide(a, b);
    NameRanks(a.data.target, b.data.target);
    LabelsAreProper(a.data.target);
    LabelsAreProper(b.data.target);
    LabelsDecide(Labels(a.data.target), Labels(b.data.target), i, j);
  }

  /** Generic data that is the beginning of other data is the greater. */
  lemma BeginningIsGreater(a: Record, b: Record)
    requires Comparable(a) && Comparable(b) && a.key == b.key && a.data.Generic? && a.data.data < b.data.data
    ensures Order(a, b) > 0
  {
    hide WellFormedName, Lexicographic;
    NumbersDecide(a, b);
    var i := |a.data.data|;
    var x, y := b.data.data + ([LAST] + []), a.data.data + ([LAST] + []);
    assert x[..i] == y[..i] && x[i] == b.data.data[i] < y[i];
    FirstDifference(x, y, i, NONE);
    LexicographicOpposite(x, y, NONE);
  }

  function AddressesOf(four: Text, six: Text): (rs: seq<Record>)
    requires |four| == 4 && |six| == 16
  {
    [Record(Key([97], 1, TYPE_A), 120, A(four)), Record(Key([97], 1, TYPE_AAAA), 120, Aaaa(six))]
  }

  lemma AddressRecords(four: Text, six: Text)
    requires |four| == 4 && |six| == 16
    ensures var rs := AddressesOf(four, six);
            AllRecords(rs) && KeyOf(rs[0]).kind == TYPE_A && KeyOf(rs[1]).kind == TYPE_AAAA && Greatest(rs, rs[0])
              && Greatest(rs, rs[1])
  {
    hide WellFormedName, Labels, Order;
    LetterNames(97, 98);
    var rs := AddressesOf(four, six);
    LoneGreatest(rs, 0);
    LoneGreatest(rs, 1);
  }

  /** Two hosts with the same name that both give way: the address of one kind is greater at one of them, that of the
      other kind at the other. */
  lemma BothGiveWay(low4: Text, high4: Text, low6: Text, high6: Text)
    requires |low4| == |high4| == 4 && |low6| == |high6| == 16 && low4[0] < high4[0] && low6[0] < high6[0]
    ensures var mine, theirs := AddressesOf(high4, low6), AddressesOf(low4, high6);
            && AllRecords(mine) && AllRecords(theirs) && Disjoint(mine, theirs)
            && GivesWay(mine, theirs) && GivesWay(theirs, mine)
  {
    hide Order, Comparable, Greatest, Rank, KeyOf;
    var mine, theirs := AddressesOf(high4, low6), AddressesOf(low4, high6);
    AddressRecords(high4, low6);
    AddressRecords(low4, high6);
    SameKeys(mine, theirs);
    BytesDecide(theirs[0], mine[0], 0);
    BytesDecide(mine[1], theirs[1], 0);
    OrderOpposite(theirs[0], mine[0]);
    OrderOpposite(mine[1], theirs[1]);
    assert OutbidBy(theirs, mine, KeyOf(mine[0]), theirs[0], mine[0]);
    assert OutbidBy(mine, theirs, KeyOf(mine[1]), mine[1], theirs[1]);
    assert Outbid(theirs, mine, KeyOf(mine[0])) && Outbid(mine, theirs, KeyOf(mine[1]));
    assert !EmptyInCommon(mine, theirs) && !EmptyInCommon(theirs, mine);
    GivesWayWhereOutbid(mine, theirs);
    GivesWayWhereOutbid(theirs, mine);
  }

  lemma SameKeys(mine: seq<Record>, theirs: seq<Record>)
    requires AllRecords(mine) && AllRecords(theirs) && |mine| == |theirs| == 2 && mine[0].key == theirs[0].key
             && mine[1].key == theirs[1].key
    ensures KeyOf(mine[0]) == KeyOf(theirs[0]) && KeyOf(mine[1]) == KeyOf(theirs[1])
  {
  }
}
