/** Joining and splitting of service names, avahi-common/domain.c. */
module ServiceName {
  import opened Utf8
  import opened Lists
  import opened Domain

  predicate ServiceNameOk(t: Text) {
    0 < |t| < LABEL_MAX
  }

  predicate TypeLabel(l: Text) {
    |l| > 2 && l[0] == UNDERSCORE
  }

  /** A service type: a name all of whose labels start with an underscore and are long enough. */
  predicate ServiceTypeOk(t: Text) {
    && 0 < |t| < DOMAIN_NAME_MAX && LabelsOf(t).Some?
    && forall i :: 0 <= i < |LabelsOf(t).value| ==> TypeLabel(LabelsOf(t).value[i])
  }

  lemma TypeIsName(t: Text)
    requires ServiceTypeOk(t)
    ensures WellFormedName(t) && Labels(t) == LabelsOf(t).value != []
  {
    LabelsOfSomething(t);
    var ls := LabelsOf(t).value;
    assert forall i :: 0 <= i < |ls| ==> TypeLabel(ls[i]);
    assert TypeLabel(ls[0]);
  }

  /** avahi_is_valid_service_type_generic */
  method IsValidServiceTypeGeneric(t: Text) returns (r: bool)
    requires NoNul(t)
    ensures r <==> ServiceTypeOk(t)
    ensures r <==> && 0 < |t| < 1014 && LabelsOf(t).Some?
                   && forall i :: 0 <= i < |LabelsOf(t).value| ==>
                        |LabelsOf(t).value[i]| > 2 && LabelsOf(t).value[i][0] == 95
  {
    if |t| >= DOMAIN_NAME_MAX || t == [] {
      return false;
    }
    var rest := t;
    ghost var done: seq<Text> := [];
    ReadingStart(t);
    while true
      invariant Reading(t, done, rest) && rest != []
      invariant forall i :: 0 <= i < |done| ==> TypeLabel(done[i])
      decreases |rest|
    {
      var c := UnescapeLabel(rest);
      if c.None? {
        return false;
      }
      ghost var tail := LabelsOf(c.value.rest);
      GlueLabelsStep(done, c.value.text, tail);
      if |c.value.text| <= 2 || c.value.text[0] != UNDERSCORE {
        if LabelsOf(t).Some? {
          assert LabelsOf(t).value[|done|] == c.value.text;
        }
        return false;
      }
      done, rest := done + [c.value.text], c.value.rest;
      if rest == [] {
        assert done + [] == done;
        return true;
      }
    }
  }

  // ---------------------------------------------------------------- join

  /** JoinAsserts: an assertion fails while a part is normalised. JoinRunsOn: a part is left without a NUL at its end,
      and whatever is in memory behind it is taken along. */
  datatype JoinResult = BadName | BadType | BadDomain | JoinAsserts | JoinRunsOn | Joined(text: Text)

  /** The text that joining is meant to produce. */
  function JoinedText(name: Option<Text>, kind: Text, domain: Text): Text
    requires WellFormedName(kind) && WellFormedName(domain)
  {
    NamePart(name) + (NormalForm(kind) + [DOT] + NormalForm(domain))
  }

  function NamePart(name: Option<Text>): Text {
    if name.Some? then Escape(name.value) + [DOT] else []
  }

  /** What the three parts are joined to in a buffer of `size` bytes. */
  ghost function JoinOutcome(size: nat, name: Option<Text>, k: Normalized, d: Normalized): JoinResult
    requires !k.Null? && !d.Null?
  {
    if k.Overran? || d.Overran? then JoinAsserts
    else if k.Unterminated? || d.Unterminated? then JoinRunsOn
    else Joined(Truncate(NamePart(name) + (k.text + [DOT] + d.text), size))
  }

  function Truncate(t: Text, size: nat): Text {
    if |t| < size then t else if size == 0 then [] else t[..size - 1]
  }

  /** As much of a text as fits into a buffer with a NUL behind it. */
  lemma TruncateFits(t: Text, size: nat)
    ensures Truncate(t, size) <= t
    ensures |Truncate(t, size)| == if |t| < size then |t| else if size == 0 then 0 else size - 1
  {
  }

  /** avahi_service_name_join into a buffer of `size` bytes. */
  method ServiceNameJoin(size: nat, name: Option<Text>, kind: Text, domain: Text) returns (r: JoinResult)
    requires NoNul(kind) && NoNul(domain)
    ensures r.BadName? <==> name.Some? && !(0 < |name.value| < 64)
    ensures r.BadType? <==> !r.BadName? && !ServiceTypeOk(kind)
    ensures r.BadDomain? <==> !r.BadName? && ServiceTypeOk(kind) && !NameOk(domain)
    ensures r.BadName? || r.BadType? || r.BadDomain? ||
            var k, d := NormalizedInto(kind, DOMAIN_NAME_MAX), NormalizedInto(domain, DOMAIN_NAME_MAX);
            !k.Null? && !d.Null? && r == JoinOutcome(size, name, k, d)
    // where there is room for both normal forms the text is the one that is meant
    ensures r.BadName? || r.BadType? || r.BadDomain? || (
              && WellFormedName(kind) && WellFormedName(domain)
              && (|NormalForm(kind)| < DOMAIN_NAME_MAX && |NormalForm(domain)| < DOMAIN_NAME_MAX ==>
                    r == Joined(Truncate(JoinedText(name, kind, domain), size))))
  {
    hide Fill, Readable, WellFormedName, Labels, LabelsOf, NormalizedInto;
    if name.Some? && (|name.value| >= LABEL_MAX || name.value == []) {
      return BadName;
    }
    var typeOk := IsValidServiceTypeGeneric(kind);
    if !typeOk {
      return BadType;
    }
    TypeIsName(kind);
    var domainOk := IsValidDomainName(domain);
    if !domainOk {
      return BadDomain;
    }
    var head: Text := [];
    if name.Some? {
      var ok, escaped, left := EscapeLabel(name.value, [], LABEL_MAX * 4);
      assert ok;
      assert [] + Escape(name.value) == Escape(name.value);
      head := escaped + [DOT];
    }
    NormalizedWhole(kind, DOMAIN_NAME_MAX);
    NormalizedWhole(domain, DOMAIN_NAME_MAX);
    var k := NormalizeName(kind, DOMAIN_NAME_MAX);
    if k.Overran? {
      return JoinAsserts;
    }
    var d := NormalizeName(domain, DOMAIN_NAME_MAX);
    if d.Overran? {
      return JoinAsserts;
    }
    if k.Unterminated? || d.Unterminated? {
      return JoinRunsOn;
    }
    return Joined(Truncate(head + (k.text + [DOT] + d.text), size));
  }

  // ---------------------------------------------------------------- split

  /** Failed: a label is malformed. SplitAsserts: a dot takes the last byte of a buffer, and an assertion fails. */
  datatype SplitResult = Failed | NoMemory | SplitAsserts | Split(name: Text, kind: Text, domain: Text)

  /** How many labels at the front start with an underscore. */
  function TypeCount(ls: seq<Text>): (n: nat)
    ensures n <= |ls|
    ensures forall i :: 0 <= i < n ==> ls[i] != [] && ls[i][0] == UNDERSCORE
    ensures n < |ls| ==> ls[n] == [] || ls[n][0] != UNDERSCORE
  {
    if ls != [] && ls[0] != [] && ls[0][0] == UNDERSCORE then 1 + TypeCount(ls[1..]) else 0
  }

  /** The labels behind the name. */
  function Behind(ls: seq<Text>, withName: bool): seq<Text> {
    if withName && ls != [] then ls[1..] else ls
  }

  function KindLabels(ls: seq<Text>, withName: bool): seq<Text> {
    Behind(ls, withName)[..TypeCount(Behind(ls, withName))]
  }

  function DomainLabels(ls: seq<Text>, withName: bool): seq<Text> {
    Behind(ls, withName)[TypeCount(Behind(ls, withName))..]
  }

  function SplitLabels(ls: seq<Text>, withName: bool): SplitResult {
    Split(if withName && ls != [] then ls[0] else [], Join(KindLabels(ls, withName)), Join(DomainLabels(ls, withName)))
  }

  /** The labels up to the first one that is malformed. */
  ghost function LabelsBefore(s: Text): seq<Text>
    decreases |s|
  {
    if s == [] || Unescape(s).None? then [] else [Unescape(s).value.text] + LabelsBefore(Unescape(s).value.rest)
  }

  lemma {:induction false} LabelsBeforeAll(s: Text)
    ensures LabelsOf(s).Some? ==> LabelsBefore(s) == LabelsOf(s).value
    decreases |s|
  {
    if s != [] && Unescape(s).Some? {
      LabelsBeforeAll(Unescape(s).value.rest);
    }
  }

  /** How labels go into a buffer, one by one. */
  datatype Room = Enough | Short | Overruns

  ghost function Put(ls: seq<Text>, size: nat): Room {
    if ls == [] then Enough
    else
      var front := ls[..|ls| - 1];
      if Put(front, size) != Enough then Put(front, size)
      else if front != [] && |Join(front)| == size - 1 then Overruns
      else if |Join(ls)| < size then Enough
      else Short
  }

  lemma PutMore(ls: seq<Text>, l: Text, size: nat)
    ensures Put(ls + [l], size) ==
            if Put(ls, size) != Enough then Put(ls, size)
            else if ls != [] && |Join(ls)| == size - 1 then Overruns
            else if |Join(ls + [l])| < size then Enough
            else Short
  {
    hide Join;
    assert (ls + [l])[..|ls|] == ls;
  }

  lemma {:induction false} PutStays(ls: seq<Text>, more: seq<Text>, size: nat)
    requires Put(ls, size) != Enough
    ensures Put(ls + more, size) == Put(ls, size)
    decreases |more|
  {
    hide Put;
    if more == [] {
      assert ls + more == ls;
    } else {
      PutMore(ls, more[0], size);
      assert ls + more == (ls + [more[0]]) + more[1..];
      PutStays(ls + [more[0]], more[1..], size);
    }
  }

  /** The first k labels, with others behind them, leave room for no more than the NUL. */
  predicate FillsAt(ls: seq<Text>, size: nat, k: int) {
    0 < k < |ls| && |Join(ls[..k])| == size - 1
  }

  lemma FillsMore(front: seq<Text>, l: Text, size: nat)
    ensures (exists k :: FillsAt(front + [l], size, k)) <==>
            (front != [] && |Join(front)| == size - 1) || exists k :: FillsAt(front, size, k)
  {
    hide Join;
    var ls := front + [l];
    forall k
      ensures FillsAt(ls, size, k) <==> FillsAt(front, size, k) || (k == |front| > 0 && |Join(front)| == size - 1)
    {
      if 0 < k <= |front| {
        assert ls[..k] == front[..k];
        assert front[..|front|] == front;
      }
    }
    assert front != [] && |Join(front)| == size - 1 ==> FillsAt(ls, size, |front|);
  }

  /** There is room exactly for what is shorter than the buffer; the assertion fails exactly where the labels in front
      of another one leave room for no more than the NUL. */
  lemma {:induction false} PutRoom(ls: seq<Text>, size: nat)
    requires size > 0
    ensures Put(ls, size).Enough? <==> |Join(ls)| < size
    ensures Put(ls, size).Overruns? <==> exists k :: FillsAt(ls, size, k)
    decreases |ls|
  {
    hide Join, Put;
    if ls == [] {
      NothingJoined();
      NothingPut(size);
    } else {
      var front, l := ls[..|ls| - 1], ls[|ls| - 1];
      PutRoom(front, size);
      assert ls == front + [l] && ls[..|front|] == front;
      PutMore(front, l, size);
      JoinGrows(front, [l]);
      if front != [] {
        JoinAppend(front, l);
      }
      FillsMore(front, l, size);
    }
  }

  lemma NothingJoined()
    ensures Join([]) == []
  {
  }

  /** The outcome of splitting: what has no room comes before what is malformed, and the type before the domain. */
  ghost function SplitOutcome(p: Text, withName: bool, nameSize: nat, typeSize: nat, domainSize: nat): SplitResult {
    var ls := LabelsBefore(p);
    var k, d := Put(KindLabels(ls, withName), typeSize), Put(DomainLabels(ls, withName), domainSize);
    if k.Overruns? || (k.Enough? && d.Overruns?) then SplitAsserts
    else if k.Short? || d.Short? then NoMemory
    else if LabelsOf(p).None? then Failed
    else SplitLabels(ls, withName).(name := Truncate(SplitLabels(ls, withName).name, nameSize))
  }

  datatype State = NAME | TYPE | DOMAIN

  /** Adds a label to a name being written, with a dot in between if there is one already. */
  method AppendLabel(l: Text, dest: Text, left: nat, empty: bool, ghost ls: seq<Text>)
    returns (room: Room, r: Text, left': nat)
    requires dest == Join(ls) && (empty <==> ls == []) && left > 0 && Put(ls, |dest| + left).Enough?
    ensures room == Put(ls + [l], |dest| + left)
    ensures room.Enough? ==> r == Join(ls + [l]) && 0 < left' && |r| + left' == |dest| + left
  {
    hide Put, Fitting;
    r, left' := dest, left;
    PutMore(ls, l, |dest| + left);
    if !empty {
      JoinAppend(ls, l);
      r, left' := r + [DOT], left' - 1;
      if left' == 0 {
        return Overruns, r, left';
      }
    }
    var ok;
    ok, r, left' := EscapeLabel(l, r, left');
    room := if ok then Enough else Short;
  }

  lemma {:induction false} TypeCountSplit(a: seq<Text>, b: seq<Text>)
    requires forall i :: 0 <= i < |a| ==> a[i] != [] && a[i][0] == UNDERSCORE
    ensures TypeCount(a + b) == |a| + TypeCount(b)
  {
    if a == [] {
      assert a + b == b;
    } else {
      TypeCountSplit(a[1..], b);
      assert (a + b)[1..] == a[1..] + b;
    }
  }

  /** What the split has read: the name label if one is wanted, type labels, domain labels. */
  ghost predicate Splitting(p: Text, withName: bool, state: State, name: seq<Text>, kinds: seq<Text>,
                            domains: seq<Text>,
                            rest: Text)
  {
    && NoNul(rest) && LabelsOf(p).Some? == LabelsOf(rest).Some?
    && LabelsBefore(p) == name + kinds + domains + LabelsBefore(rest)
    && (forall i :: 0 <= i < |kinds| ==> kinds[i] != [] && kinds[i][0] == UNDERSCORE)
    && |name| == (if withName && !state.NAME? then 1 else 0)
    && (state.NAME? ==> withName && kinds == domains == [])
    && (state.TYPE? ==> domains == [])
    && (state.DOMAIN? ==> domains != [] && TypeCount(domains) == 0)
  }

  lemma SplittingStart(p: Text, withName: bool)
    requires NoNul(p)
    ensures Splitting(p, withName, if withName then NAME else TYPE, [], [], [], p)
  {
    assert [] + [] + [] + LabelsBefore(p) == LabelsBefore(p);
  }

  lemma SplittingStep(p: Text, withName: bool, state: State, name: seq<Text>, kinds: seq<Text>, domains: seq<Text>,
                      rest: Text)
    requires Splitting(p, withName, state, name, kinds, domains, rest) && rest != [] && Unescape(rest).Some?
    ensures var Cut(l, after) := Unescape(rest).value;
            && (state.NAME? ==> Splitting(p, withName, TYPE, [l], kinds, domains, after))
            && (state.TYPE? && l != [] && l[0] == UNDERSCORE ==>
                  Splitting(p, withName, TYPE, name, kinds + [l], domains, after))
            && (state.DOMAIN? || (state.TYPE? && !(l != [] && l[0] == UNDERSCORE)) ==>
                  Splitting(p, withName, DOMAIN, name, kinds, domains + [l], after))
  {
    hide Unescape;
    var Cut(l, after) := Unescape(rest).value;
    assert LabelsBefore(rest) == [l] + LabelsBefore(after);
    ConcatAssociative(name + kinds + domains, [l], LabelsBefore(after));
    if state.NAME? {
      assert name + kinds + domains + [l] == [l] + [] + [];
    } else {
      assert name + kinds + domains + [l] == name + kinds + (domains + [l]);
      assert domains == [] ==> name + kinds + domains + [l] == name + (kinds + [l]) + [];
      if state.DOMAIN? {
        assert (domains + [l])[0] == domains[0];
      }
    }
  }

  lemma BehindName(ls: seq<Text>, withName: bool, name: seq<Text>, rest: seq<Text>)
    requires ls == name + rest && |name| == if withName then 1 else 0
    ensures Behind(ls, withName) == rest && (withName ==> ls != [] && ls[0] == name[0])
  {
  }

  lemma PartsOf(kinds: seq<Text>, others: seq<Text>, k: nat)
    requires k <= |others|
    ensures (kinds + others)[..|kinds| + k] == kinds + others[..k] && (kinds + others)[|kinds| + k..] == others[k..]
  {
  }

  lemma NoTypes(a: seq<Text>, b: seq<Text>)
    requires a != [] && TypeCount(a) == 0 && a <= b
    ensures TypeCount(b) == 0
  {
  }

  /** The parts of a list of labels, no matter where the types end. */
  lemma PartsFrom(ls: seq<Text>, withName: bool, name: seq<Text>, kinds: seq<Text>, others: seq<Text>)
    requires ls == name + (kinds + others) && |name| == if withName then 1 else 0
    requires forall i :: 0 <= i < |kinds| ==> kinds[i] != [] && kinds[i][0] == UNDERSCORE
    ensures KindLabels(ls, withName) == kinds + others[..TypeCount(others)]
    ensures DomainLabels(ls, withName) == others[TypeCount(others)..]
    ensures SplitLabels(ls, withName).name == if withName then name[0] else []
  {
    hide Join, TypeCount, Behind;
    BehindName(ls, withName, name, kinds + others);
    TypeCountSplit(kinds, others);
    PartsOf(kinds, others, TypeCount(others));
  }

  /** The parts of a list of labels that goes on behind what has been read. */
  lemma PartsAre(ls: seq<Text>, withName: bool, name: seq<Text>, kinds: seq<Text>, domains: seq<Text>, more: seq<Text>)
    requires ls == name + kinds + domains + more && |name| == if withName then 1 else 0
    requires forall i :: 0 <= i < |kinds| ==> kinds[i] != [] && kinds[i][0] == UNDERSCORE
    requires domains != [] ==> TypeCount(domains) == 0
    ensures KindLabels(ls, withName) == kinds + if domains == [] then more[..TypeCount(more)] else []
    ensures DomainLabels(ls, withName) == domains + if domains == [] then more[TypeCount(more)..] else more
    ensures SplitLabels(ls, withName).name == if withName then name[0] else []
  {
    hide Join, TypeCount, KindLabels, DomainLabels, SplitLabels;
    var others := domains + more;
    assert ls == name + (kinds + others);
    PartsFrom(ls, withName, name, kinds, others);
    if domains == [] {
      assert others == more && [] + more[TypeCount(more)..] == more[TypeCount(more)..];
    } else {
      NoTypes(domains, others);
      assert others[..0] == [] && others[0..] == others;
    }
  }

  /** A part that does not fit decides what comes of it, whatever follows. */
  lemma StopsShort(p: Text, withName: bool, state: State, name: seq<Text>, kinds: seq<Text>, domains: seq<Text>,
                   rest: Text,
                   nameSize: nat, typeSize: nat, domainSize: nat)
    requires Splitting(p, withName, state, name, kinds, domains, rest) && !state.NAME?
    requires if state.TYPE? then !Put(kinds, typeSize).Enough?
             else Put(kinds, typeSize).Enough? && !Put(domains, domainSize).Enough?
    ensures SplitOutcome(p, withName, nameSize, typeSize, domainSize) ==
            if (if state.TYPE? then Put(kinds, typeSize) else Put(domains, domainSize)).Overruns? then SplitAsserts
            else NoMemory
  {
    hide Put, KindLabels, DomainLabels, LabelsBefore, LabelsOf, SplitLabels;
    var more := LabelsBefore(rest);
    PartsAre(LabelsBefore(p), withName, name, kinds, domains, more);
    if state.TYPE? {
      PutStays(kinds, more[..TypeCount(more)], typeSize);
    } else {
      assert kinds + [] == kinds;
      PutStays(domains, more, domainSize);
    }
  }

  /** The split ends where nothing is left, or what is left is malformed. */
  lemma SplittingDone(p: Text, withName: bool, state: State, name: seq<Text>, kinds: seq<Text>, domains: seq<Text>,
                      rest: Text, nameSize: nat, typeSize: nat, domainSize: nat)
    requires Splitting(p, withName, state, name, kinds, domains, rest) && (rest == [] || Unescape(rest).None?)
    requires Put(kinds, typeSize).Enough? && Put(domains, domainSize).Enough?
    ensures SplitOutcome(p, withName, nameSize, typeSize, domainSize) ==
            if rest != [] then Failed
            else Split(Truncate(if name == [] then [] else name[0], nameSize), Join(kinds), Join(domains))
  {
    hide Put, Unescape, TypeCount, Join, KindLabels, DomainLabels, SplitLabels, LabelsBefore;
    var ls := LabelsBefore(p);
    NothingBefore(rest);
    if state.NAME? {
      assert ls == [];
      NothingSplit(withName);
    } else {
      assert ls == name + kinds + domains + [];
      PartsAre(ls, withName, name, kinds, domains, []);
      assert kinds + [] == kinds && domains + [] == domains;
      SplitIs(ls, withName);
    }
  }

  lemma NothingBefore(rest: Text)
    requires rest == [] || Unescape(rest).None?
    ensures LabelsBefore(rest) == [] && (LabelsOf(rest).Some? <==> rest == [])
  {
  }

  lemma NothingSplit(withName: bool)
    ensures KindLabels([], withName) == [] && DomainLabels([], withName) == []
    ensures SplitLabels([], withName) == Split([], [], []) && Join([]) == []
  {
  }

  lemma SplitIs(ls: seq<Text>, withName: bool)
    ensures SplitLabels(ls, withName) ==
            Split(SplitLabels(ls, withName).name, Join(KindLabels(ls, withName)), Join(DomainLabels(ls, withName)))
  {
    hide KindLabels, DomainLabels, Join;
  }

  /** avahi_service_name_split; withName says whether the caller wants the first label as a name. */
  method ServiceNameSplit(p: Text, withName: bool, nameSize: nat, typeSize: nat, domainSize: nat)
    returns (r: SplitResult)
    requires NoNul(p) && nameSize > 0 && typeSize > 0 && domainSize > 0
    ensures r == SplitOutcome(p, withName, nameSize, typeSize, domainSize)
  {
    hide Put, Splitting, SplitOutcome, Unescape, Join, LabelsOf, LabelsBefore;
    var state := if withName then NAME else TYPE;
    var rest, name, kind, domain: Text := p, [], [], [];
    var kindLeft, domainLeft := typeSize, domainSize;
    var kindEmpty, domainEmpty := true, true;
    ghost var ns: seq<Text>, ks: seq<Text>, ds: seq<Text> := [], [], [];
    SplittingStart(p, withName);
    NothingJoined();
    NothingPut(typeSize);
    NothingPut(domainSize);
    while rest != []
      invariant Splitting(p, withName, state, ns, ks, ds, rest) && NoNul(rest)
      invariant name == Truncate(if ns == [] then [] else ns[0], nameSize)
      invariant kind == Join(ks) && (kindEmpty <==> ks == []) && 0 < kindLeft == typeSize - |kind|
      invariant domain == Join(ds) && (domainEmpty <==> ds == []) && 0 < domainLeft == domainSize - |domain|
      invariant Put(ks, typeSize).Enough? && Put(ds, domainSize).Enough?
      decreases |rest|
    {
      var c := UnescapeLabel(rest);
      if c.None? {
        SplittingDone(p, withName, state, ns, ks, ds, rest, nameSize, typeSize, domainSize);
        return Failed;
      }
      var l := c.value.text;
      SplittingStep(p, withName, state, ns, ks, ds, rest);
      rest := c.value.rest;
      var room;
      if state.NAME? {
        name := Truncate(l, nameSize);
        state, ns := TYPE, [l];
      } else if state.TYPE? && l != [] && l[0] == UNDERSCORE {
        room, kind, kindLeft := AppendLabel(l, kind, kindLeft, kindEmpty, ks);
        kindEmpty, ks := false, ks + [l];
        if room != Enough {
          StopsShort(p, withName, state, ns, ks, ds, rest, nameSize, typeSize, domainSize);
          return if room.Overruns? then SplitAsserts else NoMemory;
        }
      } else {
        state := DOMAIN;
        room, domain, domainLeft := AppendLabel(l, domain, domainLeft, domainEmpty, ds);
        domainEmpty, ds := false, ds + [l];
        if room != Enough {
          StopsShort(p, withName, state, ns, ks, ds, rest, nameSize, typeSize, domainSize);
          return if room.Overruns? then SplitAsserts else NoMemory;
        }
      }
    }
    SplittingDone(p, withName, state, ns, ks, ds, rest, nameSize, typeSize, domainSize);
    return Split(name, kind, domain);
  }

  lemma NothingPut(size: nat)
    ensures Put([], size) == Enough
  {
  }

  // ---------------------------------------------------------------- split inverts join

  lemma Regroup(a: Text, c: Text, t: Text)
    ensures a + [DOT] + c + [DOT] + t == a + ([DOT] + (c + [DOT] + t))
    ensures a + [DOT] + t == a + ([DOT] + t)
    ensures ([DOT] + t)[1..] == t && ([DOT] + (c + [DOT] + t))[1..] == c + [DOT] + t
  {
  }

  lemma LabelsOfEscapeDot(l: Text, t: Text)
    requires ProperLabel(l)
    ensures LabelsOf(Escape(l) + ([DOT] + t)) == GlueLabels([l], LabelsOf(t))
  {
    UnescapeEscape(l, [DOT] + t);
    assert ([DOT] + t)[1..] == t;
  }

  /** Labels can be read off a text of proper labels that is followed by a dot and more. */
  lemma {:induction false} LabelsOfJoinDot(ls: seq<Text>, t: Text)
    requires ls != [] && ProperLabels(ls)
    ensures LabelsOf(Join(ls) + [DOT] + t) == GlueLabels(ls, LabelsOf(t))
  {
    var more := if |ls| == 1 then [] else Join(ls[1..]);
    Regroup(Escape(ls[0]), more, t);
    if |ls| == 1 {
      LabelsOfEscapeDot(ls[0], t);
      assert [ls[0]] == ls;
    } else {
      LabelsOfEscapeDot(ls[0], more + [DOT] + t);
      LabelsOfJoinDot(ls[1..], t);
      GlueOneFirst(ls, LabelsOf(t));
    }
  }

  lemma GlueOneFirst(ls: seq<Text>, tail: Option<seq<Text>>)
    requires ls != []
    ensures GlueLabels([ls[0]], GlueLabels(ls[1..], tail)) == GlueLabels(ls, tail)
  {
    if tail.Some? {
      assert [ls[0]] + (ls[1..] + tail.value) == ls + tail.value;
    }
  }

  lemma LabelsOfBadEscape(l: Text, t: Text)
    requires NoNul(l) && l != [] && !WellFormed(l)
    ensures LabelsOf(Escape(l) + ([DOT] + t)) == None
  {
    LexEscape(l, [DOT] + t);
  }

  /** The name label, if there is one, can be read and is what was joined. */
  predicate NameReadable(name: Option<Text>) {
    name.Some? ==> WellFormed(name.value)
  }

  /** The first label of the domain could be taken for a part of the type. */
  predicate StartsWithUnderscore(domain: Text)
    requires WellFormedName(domain)
  {
    Labels(domain) != [] && Labels(domain)[0] != [] && Labels(domain)[0][0] == UNDERSCORE
  }

  lemma LabelsOfJoined(name: Option<Text>, kind: Text, domain: Text)
    requires NoNul(kind) && NoNul(domain) && ServiceTypeOk(kind) && NameOk(domain)
    requires name.Some? ==> NoNul(name.value) && ServiceNameOk(name.value)
    requires WellFormedName(kind)
    ensures var front := if name.Some? then [name.value] else [];
            LabelsOf(JoinedText(name, kind, domain)) ==
            if NameReadable(name) then Some(front + (Labels(kind) + Labels(domain))) else None
  {
    TypeIsName(kind);
    LabelsAreProper(kind);
    LabelsAreProper(domain);
    LabelsOfJoin(Labels(domain));
    var t := NormalForm(kind) + [DOT] + NormalForm(domain);
    LabelsOfJoinDot(Labels(kind), NormalForm(domain));
    if name.Some? {
      ConcatAssociative(Escape(name.value), [DOT], t);
      if WellFormed(name.value) {
        LabelsOfEscapeDot(name.value, t);
      } else {
        LabelsOfBadEscape(name.value, t);
      }
    } else {
      assert [] + t == t;
      assert [] + (Labels(kind) + Labels(domain)) == Labels(kind) + Labels(domain);
    }
  }

  lemma {:induction false} JoinInjective(a: seq<Text>, b: seq<Text>)
    requires ProperLabels(a) && ProperLabels(b) && Join(a) == Join(b)
    ensures a == b
  {
    LabelsOfJoin(a);
    LabelsOfJoin(b);
  }

  /** Labels without a type among them, and others, come back as they were joined unless the others begin with a type.
      */
  lemma PartsComeBack(ks: seq<Text>, ds: seq<Text>, front: seq<Text>, withName: bool)
    requires ProperLabels(ks) && ProperLabels(ds) && |front| == if withName then 1 else 0
    requires forall i :: 0 <= i < |ks| ==> ks[i] != [] && ks[i][0] == UNDERSCORE
    ensures SplitLabels(front + (ks + ds), withName) == Split(if withName then front[0] else [], Join(ks), Join(ds))
            <==> TypeCount(ds) == 0
  {
    hide Join, TypeCount, KindLabels, DomainLabels, SplitLabels, ProperLabel;
    var k := TypeCount(ds);
    PartsFrom(front + (ks + ds), withName, front, ks, ds);
    SplitIs(front + (ks + ds), withName);
    if k == 0 {
      assert ks + ds[..0] == ks && ds[0..] == ds;
    } else if Join(ks + ds[..k]) == Join(ks) {
      assert |ks + ds[..k]| == |ks| + k;
      JoinInjective(ks + ds[..k], ks);
    }
  }

  /** Splitting what was joined gives the name, the normal type and the normal domain back exactly when
      the name is UTF-8 and the domain does not start with an underscore label. */
  lemma SplitOfJoin(name: Option<Text>, kind: Text, domain: Text)
    requires NoNul(kind) && NoNul(domain) && ServiceTypeOk(kind) && NameOk(domain) && WellFormedName(kind)
    requires name.Some? ==> NoNul(name.value) && ServiceNameOk(name.value)
    ensures var ls := LabelsOf(JoinedText(name, kind, domain));
            var original := Split(if name.Some? then name.value else [], NormalForm(kind), NormalForm(domain));
            (ls.Some? && SplitLabels(ls.value, name.Some?) == original) <==>
            NameReadable(name) && !StartsWithUnderscore(domain)
  {
    hide Join, TypeCount, KindLabels, DomainLabels, SplitLabels, JoinedText, LabelsOf, WellFormedName, NoNul;
    LabelsOfJoined(name, kind, domain);
    TypeIsName(kind);
    LabelsAreProper(kind);
    LabelsAreProper(domain);
    if NameReadable(name) {
      var front := if name.Some? then [name.value] else [];
      var ks, ds := Labels(kind), Labels(domain);
      assert forall i :: 0 <= i < |ks| ==> TypeLabel(ks[i]);
      PartsComeBack(ks, ds, front, name.Some?);
      FirstTypes(ds);
    }
  }

  lemma FirstTypes(ds: seq<Text>)
    ensures TypeCount(ds) == 0 <==> !(ds != [] && ds[0] != [] && ds[0][0] == UNDERSCORE)
  {
  }
}
