/** Collision renaming, avahi-common/alternative.c: a name that is taken gets a number at its end, or the next
    number, and is cut so that it stays a label. */
module Alternative {
  import opened Utf8
  import opened Lists
  import opened Domain
  import opened ServiceName

  const DASH: Byte := 45
  const ZERO: Byte := 48
  const INT_MAX := 0x7FFF_FFFF

  /** What stands between a name and its number: a dash, or a space and a number sign. */
  const HOST: Text := [DASH]
  const SERVICE: Text := [32, 35]

  predicate Separates(sep: Text) {
    sep == HOST || sep == SERVICE
  }

  // ---------------------------------------------------------------- decimal numbers

  predicate Digits(t: Text) {
    forall i :: 0 <= i < |t| ==> IsDigit(t[i])
  }

  /** What %i prints. */
  function Decimal(n: nat): (t: Text)
    ensures t != [] && Digits(t)
  {
    if n < 10 then [48 + n] else Decimal(n / 10) + [48 + n % 10]
  }

  /** What atoi reads. */
  function ValueOf(t: Text): nat
    requires Digits(t)
  {
    if t == [] then 0 else ValueOf(t[..|t| - 1]) * 10 + Digit(t[|t| - 1])
  }

  lemma {:induction false} DecimalReads(n: nat)
    ensures ValueOf(Decimal(n)) == n && (n > 0 ==> Decimal(n)[0] != ZERO)
  {
    if n < 10 {
      assert Decimal(n)[..0] == [];
      assert ValueOf([]) == 0;
    } else {
      DecimalReads(n / 10);
      assert Decimal(n)[..|Decimal(n)| - 1] == Decimal(n / 10);
    }
  }

  function Tens(d: nat): nat {
    if d == 0 then 1 else 10 * Tens(d - 1)
  }

  lemma {:induction false} DecimalShort(n: nat, d: nat)
    requires n < Tens(d) && d > 0
    ensures |Decimal(n)| <= d
  {
    if n >= 10 {
      assert Tens(0) == 1;
      DecimalShort(n / 10, d - 1);
    }
  }

  lemma IntShort(n: nat)
    requires n <= INT_MAX
    ensures |Decimal(n)| <= 10
  {
    assert Tens(3) == 1000;
    assert Tens(6) == 1000 * Tens(3);
    assert Tens(10) == 10000 * Tens(6);
    DecimalShort(n, 10);
  }

  // ---------------------------------------------------------------- the number at the end of a name

  predicate OccursAt(s: Text, sep: Text, i: nat) {
    i + |sep| <= |s| && s[i..i + |sep|] == sep
  }

  /** The last occurrence that does not start behind i; strrchr with a text. */
  function LastFrom(s: Text, sep: Text, i: nat): (r: Option<nat>)
    ensures r.Some? ==> r.value <= i && OccursAt(s, sep, r.value) && forall j :: r.value < j <= i ==>
            !OccursAt(s, sep, j)
    ensures r.None? ==> forall j :: 0 <= j <= i ==> !OccursAt(s, sep, j)
  {
    if OccursAt(s, sep, i) then Some(i) else if i == 0 then None else LastFrom(s, sep, i - 1)
  }

  function Last(s: Text, sep: Text): Option<nat> {
    LastFrom(s, sep, |s|)
  }

  /** The first occurrence from i on; strstr. */
  function FirstFrom(s: Text, sep: Text, i: nat): (r: Option<nat>)
    requires i <= |s|
    ensures r.Some? ==> r.value >= i && OccursAt(s, sep, r.value)
    ensures r.None? ==> forall j :: i <= j ==> !OccursAt(s, sep, j)
    decreases |s| - i
  {
    if OccursAt(s, sep, i) then Some(i) else if i == |s| then None else FirstFrom(s, sep, i + 1)
  }

  predicate Numeral(t: Text) {
    t != [] && Digits(t) && t[0] != ZERO
  }

  predicate Numbered(s: Text, sep: Text) {
    Last(s, sep).Some? && Numeral(s[Last(s, sep).value + |sep|..])
  }

  /** The name without its number. */
  function Stem(s: Text, sep: Text): (t: Text)
    ensures |t| <= |s| && t == s[..|t|]
  {
    if Numbered(s, sep) then s[..Last(s, sep).value] else s
  }

  /** The number of a name; names without one count as the first. */
  function Number(s: Text, sep: Text): nat {
    if Numbered(s, sep) then ValueOf(s[Last(s, sep).value + |sep|..]) else 1
  }

  /** What is left of the name after making room for the separator and the number. */
  function Cutoff(s: Text, sep: Text): (t: Text)
    requires Separates(sep) && Number(s, sep) < INT_MAX
    ensures |t| <= |s| && t == s[..|t|] && |t| + |sep| + |Decimal(Number(s, sep) + 1)| < LABEL_MAX
  {
    var m := Decimal(Number(s, sep) + 1);
    IntShort(Number(s, sep) + 1);
    var l := LABEL_MAX - 1 - |m| - |sep|;
    if |Stem(s, sep)| > l then Stem(s, sep)[..l] else Stem(s, sep)
  }

  function Renamed(s: Text, sep: Text): (t: Text)
    requires Separates(sep) && Number(s, sep) < INT_MAX
    ensures |t| < LABEL_MAX
  {
    Whole(Cutoff(s, sep)) + sep + Decimal(Number(s, sep) + 1)
  }

  /** In what is made of digits after a separator, that separator is the last. */
  lemma LastAfter(c: Text, sep: Text, m: Text)
    requires Separates(sep) && Digits(m)
    ensures Last(c + sep + m, sep) == Some(|c|)
  {
    var t := c + sep + m;
    assert t[|c|..|c| + |sep|] == sep;
    assert OccursAt(t, sep, |c|);
    forall j | |c| < j <= |t|
      ensures !OccursAt(t, sep, j)
    {
      if j + |sep| <= |t| {
        var w := t[j..j + |sep|];
        assert w[0] == t[j] != sep[0];
      }
    }
  }

  /** A name made for a collision has the next number. */
  lemma RenamedNumber(s: Text, sep: Text)
    requires Separates(sep) && Number(s, sep) < INT_MAX
    ensures Number(Renamed(s, sep), sep) == Number(s, sep) + 1 && Stem(Renamed(s, sep), sep) == Whole(Cutoff(s, sep))
  {
    hide Cutoff, LastFrom, Decimal, ValueOf;
    var n := Number(s, sep) + 1;
    DecimalReads(n);
    var c, m := Whole(Cutoff(s, sep)), Decimal(n);
    LastAfter(c, sep, m);
    assert (c + sep + m)[|c| + |sep|..] == m;
  }

  /** No more is cut off than is needed for a label of 63 bytes. */
  lemma CutoffLongest(s: Text, sep: Text)
    requires Separates(sep) && Number(s, sep) < INT_MAX
    ensures Cutoff(s, sep) == Stem(s, sep)
            || |Cutoff(s, sep)| + |sep| + |Decimal(Number(s, sep) + 1)| == 63
  {
    hide Decimal, Stem, Number;
  }

  /** A host "name" becomes "name-2", a service "name" becomes "name #2", unless that makes it longer than a label. */
  lemma FirstRename(s: Text, sep: Text)
    requires (sep == [45] || sep == [32, 35]) && !Numbered(s, sep) && WellFormed(s) && |s| + |sep| < 63
    ensures Separates(sep) && Renamed(s, sep) == s + sep + [50]
  {
    hide Numbered, WellFormed, Decimal, LastFrom, WholeLength;
    Two();
    assert s[..|s|] == s;
    WholeLongest(s, |s|);
  }

  lemma Two()
    ensures Decimal(2) == [50]
  {
  }

  /** Nothing behind a separator, or a zero in front, is no number. */
  lemma NoNumber(c: Text, sep: Text, m: Text)
    requires (sep == [45] || sep == [32, 35]) && Digits(m) && (m == [] || m[0] == 48)
    ensures !Numbered(c + sep + m, sep)
  {
    hide LastFrom;
    LastAfter(c, sep, m);
    assert (c + sep + m)[|c| + |sep|..] == m;
  }

  /** "name-2" becomes "name-3", and "name #2" becomes "name #3". */
  lemma NextRename(c: Text, sep: Text, n: nat)
    requires (sep == [45] || sep == [32, 35]) && 0 < n < 0x7FFF_FFFF && WellFormed(c)
    requires |c| + |sep| + |Decimal(n + 1)| < 64
    ensures Number(c + sep + Decimal(n), sep) == n
    ensures Renamed(c + sep + Decimal(n), sep) == c + sep + Decimal(n + 1)
  {
    hide LastFrom, Decimal, ValueOf, WellFormed;
    DecimalReads(n);
    var s, m := c + sep + Decimal(n), Decimal(n);
    LastAfter(c, sep, m);
    assert s[|c| + |sep|..] == m && s[..|c|] == c;
    assert c[..|c|] == c;
    WholeLongest(c, |c|);
  }

  // ---------------------------------------------------------------- what renaming keeps

  /** A service name that is UTF-8, or a host name that is and has no dots and escapes. */
  predicate Renamable(s: Text, sep: Text) {
    && ServiceNameOk(s) && NoNul(s) && WellFormed(s)
    && (sep == HOST ==> DOT !in s && BACKSLASH !in s)
  }

  /** A name that is UTF-8 is cut between characters, and stays UTF-8. */
  lemma RenamedWellFormed(s: Text, sep: Text)
    requires Separates(sep) && WellFormed(s) && Number(s, sep) < INT_MAX
    ensures CutInside(Cutoff(s, sep)) && WellFormed(Renamed(s, sep))
  {
    hide Stem, Number, Decimal, LastFrom, WholeLength, WellFormed, CutInside;
    var c, m := Cutoff(s, sep), Decimal(Number(s, sep) + 1);
    CutWellFormed(s, |c|);
    WholeWellFormed(c);
    assert forall i :: 0 <= i < |m| ==> IsDigit(m[i]);
    AsciiWellFormed(sep + m);
    WellFormedConcat(Whole(c), sep + m);
    assert Whole(c) + sep + m == Whole(c) + (sep + m);
  }

  lemma RenamedBytes(s: Text, sep: Text)
    requires Separates(sep) && Number(s, sep) < INT_MAX
    ensures forall b :: b in Renamed(s, sep) ==> b in s || b in sep || IsDigit(b)
  {
    hide Stem, Number, Decimal, LastFrom, WholeLength;
    var c, m := Whole(Cutoff(s, sep)), Decimal(Number(s, sep) + 1);
    assert forall i :: 0 <= i < |c| ==> c[i] == s[i];
  }

  /** Host names and service names stay what they are. */
  lemma RenamedKeeps(s: Text, sep: Text)
    requires Separates(sep) && Renamable(s, sep) && Number(s, sep) < INT_MAX
    ensures CutInside(Cutoff(s, sep)) && Renamable(Renamed(s, sep), sep)
  {
    hide Number, Cutoff, Decimal, WholeLength, WellFormed, CutInside;
    RenamedWellFormed(s, sep);
    RenamedBytes(s, sep);
    assert Renamed(s, sep) != [];
  }

  /** Names that are made one out of the other. */
  ghost predicate Run(names: seq<Text>, sep: Text) {
    && Separates(sep) && names != [] && Renamable(names[0], sep)
    && forall i :: 0 < i < |names| ==> Follows(names[i - 1], names[i], sep)
  }

  ghost predicate Follows(s: Text, t: Text, sep: Text)
    requires Separates(sep)
  {
    Number(s, sep) < INT_MAX && t == Renamed(s, sep)
  }

  lemma {:induction false} RunNumbers(names: seq<Text>, sep: Text, i: nat)
    requires Run(names, sep) && i < |names|
    ensures Renamable(names[i], sep) && Number(names[i], sep) == Number(names[0], sep) + i
  {
    hide Renamable, Number, Renamed;
    if i > 0 {
      RunNumbers(names, sep, i - 1);
      assert Follows(names[i - 1], names[i], sep);
      RenamedKeeps(names[i - 1], sep);
      RenamedNumber(names[i - 1], sep);
    }
  }

  /** However often a name is taken, no alternative is tried twice, and all of them are valid. */
  lemma NeverRepeats(names: seq<Text>, sep: Text, i: nat, j: nat)
    requires Run(names, sep) && i < j < |names|
    ensures names[i] != names[j] && Renamable(names[j], sep)
  {
    RunNumbers(names, sep, i);
    RunNumbers(names, sep, j);
  }

  // ---------------------------------------------------------------- host names

  /** avahi_is_valid_host_name accepts these. */
  predicate HostNameOk(t: Text) {
    && 0 < |t| < DOMAIN_NAME_MAX
    && Unescape(t).Some? && Unescape(t).value.text != [] && Unescape(t).value.rest == []
  }

  /** A host name is a domain name of a single label. */
  lemma HostNameIsLabel(t: Text)
    ensures HostNameOk(t) <==>
              0 < |t| < 1014 && LabelsOf(t).Some? && |LabelsOf(t).value| == 1 && LabelsOf(t).value[0] != []
  {
    hide Unescape;
    if t != [] && Unescape(t).Some? && Unescape(t).value.rest != [] && LabelsOf(Unescape(t).value.rest).Some? {
      LabelsOfSomething(Unescape(t).value.rest);
    }
  }

  method IsValidHostName(t: Text) returns (r: bool)
    requires NoNul(t)
    ensures r <==> HostNameOk(t)
  {
    if |t| >= DOMAIN_NAME_MAX || CharAt(t, 0) == 0 {
      return false;
    }
    var c := UnescapeLabel(t);
    r := c.Some? && c.value.text != [] && c.value.rest == [];
  }

  /** Without dots and escapes the label of a host name is its text. */
  lemma PlainHostName(t: Text)
    requires DOT !in t && BACKSLASH !in t
    ensures HostNameOk(t) <==> 0 < |t| < LABEL_MAX && WellFormed(t)
  {
    LexUnescaped(t);
  }

  /** A text of plain bytes and finished escapes only. */
  predicate Complete(t: Text) {
    t == [] || (NextToken(t).Char? && Complete(t[NextToken(t).width..]))
  }

  /** What a separator and a number behind a text, in a host name, make of it. */
  lemma {:induction false} LexBeforeNumber(c: Text, t: Text)
    requires t != [] && t[0] == DASH && DOT !in t && BACKSLASH !in t
    ensures if Complete(c) then
              && Lex(c).Some? && Lex(c).value.rest == []
              && Lex(c + t) == Some(Cut(Lex(c).value.text + t, []))
            else Lex(c + t).None? || Lex(c + t).value.rest != []
  {
    hide NextToken, Lex;
    LexStep(c);
    LexStep(c + t);
    if c == [] {
      assert c + t == t;
      LexUnescaped(t);
    } else {
      TokenBefore(c, t);
      var n := NextToken(c);
      if n.Char? {
        LexBeforeNumber(c[n.width..], t);
        assert (c + t)[n.width..] == c[n.width..] + t;
        if Complete(c) {
          ConcatAssociative([n.b], Lex(c[n.width..]).value.text, t);
        }
      } else {
        assert (c + t)[1..] == c[1..] + t;
      }
    }
  }

  lemma TokenBefore(c: Text, t: Text)
    requires c != [] && t != [] && t[0] == DASH
    ensures NextToken(c + t) == NextToken(c)
  {
    assert forall i :: 0 <= i < |c| ==> (c + t)[i] == c[i];
    assert (c + t)[|c|] == DASH;
  }

  /** What is left of a host name makes a host name with a number exactly when no dot and no unfinished escape
      is in it, and when it stands for UTF-8. */
  predicate Extensible(c: Text) {
    Complete(c) && Lex(c).Some? && WellFormed(Lex(c).value.text)
  }

  lemma RenamedHostOk(s: Text)
    requires Number(s, HOST) < INT_MAX
    ensures HostNameOk(Renamed(s, HOST)) <==> Extensible(Whole(Cutoff(s, HOST)))
  {
    hide Stem, Number, Decimal, LastFrom, WholeLength, WellFormed, Lex, Complete;
    var c, m := Whole(Cutoff(s, HOST)), Decimal(Number(s, HOST) + 1);
    assert forall i :: 0 <= i < |m| ==> IsDigit(m[i]);
    var t := HOST + m;
    assert c + HOST + m == c + t;
    LexBeforeNumber(c, t);
    AsciiWellFormed(t);
    if Complete(c) {
      var l := Lex(c).value.text;
      if WellFormed(l) {
        WellFormedConcat(l, t);
      }
      if WellFormed(l + t) {
        WellFormedBeforeAscii(l, t);
      }
    }
  }

  // ---------------------------------------------------------------- the renaming itself

  /** NULL for a name that is not valid, an overflow of the number (which C leaves undefined), a failing
      assertion, or the new name. */
  datatype Outcome = Rejected | Overflows | Aborted | Made(name: Text)

  /** Whether a number without leading zeros starts at e. */
  method IsNumeral(s: Text, e: nat) returns (r: bool)
    requires NoNul(s) && e <= |s|
    ensures r <==> Numeral(s[e..])
  {
    var p := e;
    while CharAt(s, p) != 0
      invariant e <= p <= |s| && Digits(s[e..p])
      decreases |s| - p
    {
      if !IsDigit(CharAt(s, p)) {
        assert s[e..][p - e] == s[p];
        return false;
      }
      assert s[e..p + 1] == s[e..p] + [s[p]];
      p := p + 1;
    }
    assert s[e..p] == s[e..];
    r := CharAt(s, e) != ZERO && CharAt(s, e) != 0;
  }

  /** Where the number of a host name starts, if it has one. */
  method HostNumber(s: Text) returns (e: Option<nat>)
    requires NoNul(s)
    ensures if Numbered(s, HOST) then e == Some(Last(s, HOST).value + |HOST|) else e == None
  {
    var dash := Last(s, HOST);
    if dash.None? {
      return None;
    }
    var numeral := IsNumeral(s, dash.value + 1);
    e := if numeral then Some(dash.value + 1) else None;
  }

  lemma OccursInside(s: Text, sep: Text, i: nat)
    requires OccursAt(s, sep, i)
    ensures i + |sep| <= |s|
  {
  }

  lemma NotInside(s: Text, i: nat)
    requires i >= 2 && OccursAt(s, SERVICE, i - 2)
    ensures !OccursAt(s, SERVICE, i - 1)
  {
    var v := s[i - 2..i];
    assert v[1] == s[i - 1];
    if i + 1 <= |s| {
      var w := s[i - 1..i + 1];
      assert w[0] == s[i - 1];
    }
  }

  lemma LastIs(s: Text, sep: Text, i: nat)
    requires OccursAt(s, sep, i) && forall j :: i < j ==> !OccursAt(s, sep, j)
    ensures Last(s, sep) == Some(i)
  {
  }

  lemma LastIsNone(s: Text, sep: Text)
    requires forall j :: 0 <= j ==> !OccursAt(s, sep, j)
    ensures Last(s, sep) == None
  {
  }

  /** Where the number of a service name starts, if it has one. */
  method ServiceNumber(s: Text) returns (e: Option<nat>)
    requires NoNul(s)
    ensures if Numbered(s, SERVICE) then e == Some(Last(s, SERVICE).value + |SERVICE|) else e == None
  {
    hide OccursAt, LastFrom;
    var n := FirstFrom(s, SERVICE, 0);
    if n.None? {
      LastIsNone(s, SERVICE);
      return None;
    }
    OccursInside(s, SERVICE, n.value);
    var start := n.value + 2;
    n := FirstFrom(s, SERVICE, start);
    while n.Some?
      invariant 2 <= start && OccursAt(s, SERVICE, start - 2) && start <= |s| && n == FirstFrom(s, SERVICE, start)
      decreases |s| - start
    {
      OccursInside(s, SERVICE, n.value);
      start := n.value + 2;
      n := FirstFrom(s, SERVICE, start);
    }
    NotInside(s, start);
    LastIs(s, SERVICE, start - 2);
    var numeral := IsNumeral(s, start);
    e := if numeral then Some(start) else None;
  }

  /** strndup */
  method Strndup(s: Text, n: nat) returns (c: array<Byte>)
    requires NoNul(s)
    ensures fresh(c) && 0 in c[..] && CString(c[..]) == if n < |s| then s[..n] else s
  {
    var l := if n < |s| then n else |s|;
    c := new Byte[l + 1](i => CharAt(s, i));
    c[l] := 0;
    assert c[..][l] == 0 && c[..][..l] == s[..l];
    CStringUpTo(c[..], l);
  }

  /** At most l bytes of the name, a separator, and a number. */
  method Append(s: Text, l: nat, sep: Text, n: nat) returns (r: Option<Text>)
    requires NoNul(s)
    ensures var c := if l < |s| then s[..l] else s;
            r == if CutInside(c) then Some(Whole(c) + sep + Decimal(n)) else None
  {
    hide WholeLength, Decimal;
    var c := Strndup(s, l);
    var ok := DropIncompleteUtf8(c);
    r := if ok then Some(CString(c[..]) + sep + Decimal(n)) else None;
  }

  lemma SecondNumber()
    ensures Decimal(2) == [50]
  {
  }

  /** After nine comes ten. */
  lemma TenthNumber()
    ensures Decimal(9) == [57] && Decimal(10) == [49, 48] && ValueOf([49, 48]) == 10
  {
    assert Decimal(1) == [49];
    assert [49, 48][..1] == [49] && ValueOf([49]) == 1;
  }

  lemma RenamableHost(s: Text)
    requires Renamable(s, HOST) && Number(s, HOST) < INT_MAX
    ensures HostNameOk(s) && CutInside(Cutoff(s, HOST)) && Extensible(Whole(Cutoff(s, HOST)))
  {
    hide HostNameOk, WellFormed, Cutoff, WholeLength, CutInside, Extensible, Number;
    PlainHostName(s);
    RenamedKeeps(s, HOST);
    PlainHostName(Renamed(s, HOST));
    RenamedHostOk(s);
  }

  /** avahi_alternative_host_name */
  method AlternativeHostName(s: Text) returns (r: Outcome)
    requires NoNul(s)
    ensures r.Rejected? <==> !HostNameOk(s)
    ensures r.Overflows? <==> HostNameOk(s) && Number(s, HOST) >= 0x7FFF_FFFF
    ensures r.Made? ==> r.name == Renamed(s, HOST) && HostNameOk(r.name)
    // the assertions hold exactly when the cut is good
    ensures HostNameOk(s) && Number(s, HOST) < INT_MAX ==>
              (r.Made? <==> CutInside(Cutoff(s, HOST)) && Extensible(Whole(Cutoff(s, HOST))))
    ensures Renamable(s, HOST) && Number(s, HOST) < INT_MAX ==> r.Made?
  {
    hide HostNameOk, LastFrom, Decimal, ValueOf, CutInside, WholeLength, Extensible, Renamable;
    if Renamable(s, HOST) && Number(s, HOST) < INT_MAX {
      RenamableHost(s);
    }
    var valid := IsValidHostName(s);
    if !valid {
      return Rejected;
    }
    var e := HostNumber(s);
    var name;
    if e.Some? {
      if ValueOf(s[e.value..]) >= INT_MAX {
        return Overflows;
      }
      var n := ValueOf(s[e.value..]) + 1;
      IntShort(n);
      var l := e.value - 1;
      if l >= LABEL_MAX - 1 - |Decimal(n)| - 1 {
        l := LABEL_MAX - 1 - |Decimal(n)| - 1;
      }
      name := Append(s, l, HOST, n);
    } else {
      SecondNumber();
      name := Append(s, LABEL_MAX - 1 - 2, HOST, 2);
    }
    RenamedHostOk(s);
    if name.None? {
      return Aborted;
    }
    valid := IsValidHostName(name.value);
    r := if valid then Made(name.value) else Aborted;
  }

  /** avahi_is_valid_service_name */
  method IsValidServiceName(t: Text) returns (r: bool)
    requires NoNul(t)
    ensures r <==> ServiceNameOk(t)
    ensures r <==> 0 < |t| < 64
  {
    r := |t| < LABEL_MAX && CharAt(t, 0) != 0;
  }

  lemma RenamableService(s: Text)
    requires Renamable(s, SERVICE) && Number(s, SERVICE) < INT_MAX
    ensures ServiceNameOk(s) && CutInside(Cutoff(s, SERVICE))
  {
    hide WellFormed, Cutoff, WholeLength, CutInside, Number;
    RenamedKeeps(s, SERVICE);
  }

  lemma RenamedServiceOk(s: Text)
    requires Number(s, SERVICE) < INT_MAX
    ensures ServiceNameOk(Renamed(s, SERVICE))
  {
    hide Cutoff, WholeLength, Number, Decimal;
  }

  /** avahi_alternative_service_name */
  method AlternativeServiceName(s: Text) returns (r: Outcome)
    requires NoNul(s)
    ensures r.Rejected? <==> !ServiceNameOk(s)
    ensures r.Overflows? <==> ServiceNameOk(s) && Number(s, SERVICE) >= 0x7FFF_FFFF
    ensures r.Made? ==> r.name == Renamed(s, SERVICE) && ServiceNameOk(r.name)
    ensures ServiceNameOk(s) && Number(s, SERVICE) < INT_MAX ==> (r.Made? <==> CutInside(Cutoff(s, SERVICE)))
    ensures Renamable(s, SERVICE) && Number(s, SERVICE) < INT_MAX ==> r.Made?
  {
    hide ServiceNameOk, LastFrom, Decimal, ValueOf, CutInside, WholeLength, Renamable;
    if Renamable(s, SERVICE) && Number(s, SERVICE) < INT_MAX {
      RenamableService(s);
    }
    if Number(s, SERVICE) < INT_MAX {
      RenamedServiceOk(s);
    }
    var valid := IsValidServiceName(s);
    if !valid {
      return Rejected;
    }
    var e := ServiceNumber(s);
    var name;
    if e.Some? {
      if ValueOf(s[e.value..]) >= INT_MAX {
        return Overflows;
      }
      var n := ValueOf(s[e.value..]) + 1;
      IntShort(n);
      var l := e.value - 2;
      if l >= LABEL_MAX - 1 - |Decimal(n)| - 2 {
        l := LABEL_MAX - 1 - |Decimal(n)| - 2;
      }
      name := Append(s, l, SERVICE, n);
    } else {
      SecondNumber();
      name := Append(s, LABEL_MAX - 1 - 3, SERVICE, 2);
    }
    if name.None? {
      return Aborted;
    }
    valid := IsValidServiceName(name.value);
    r := if valid then Made(name.value) else Aborted;
  }

  // ---------------------------------------------------------------- names that make the assertions fail

  /** A valid host name may end in a dot; a number behind it would be a second label. */
  lemma TrailingDotAborts()
    ensures var s: Text := [97, DOT]; HostNameOk(s) && Number(s, HOST) == 1 && !HostNameOk(Renamed(s, HOST))
  {
    var s: Text, a: Text := [97, DOT], [97];
    assert s[1..] == [DOT] && s[1..][1..] == [] && s[..2] == s && a + [] == a;
    LexStep(s[1..]);
    LexStep(s);
    assert Lex(s) == Some(Cut(a, [])) && a[1..] == [];
    LastIsNone(s, HOST);
    SecondNumber();
    assert WholeLength(s[1..]) == 1 && WholeLength(s) == 2;
    assert !Complete(s[1..]) && !Complete(s);
    RenamedHostOk(s);
  }

  /** A service name need not be UTF-8. */
  lemma NotUtf8Aborts()
    ensures var s: Text := [255, 97]; ServiceNameOk(s) && Number(s, SERVICE) == 1 && !CutInside(Cutoff(s, SERVICE))
  {
    var s: Text := [255, 97];
    SecondNumber();
    assert Cutoff(s, SERVICE) == s && s[1] == 97;
  }
}
