/** Domain names of avahi-common/domain.c: labels, escapes, normal form, comparison and hash. */
module Domain {
  import opened Utf8
  import opened Lists

  const LABEL_MAX := 64
  const DOMAIN_NAME_MAX := 1014

  const DOT: Byte := 46
  const BACKSLASH: Byte := 92
  const UNDERSCORE: Byte := 95

  datatype Option<+T> = None | Some(value: T)

  /** A label that fits the buffers, is not empty and is UTF-8. */
  predicate ProperLabel(l: Text) {
    0 < |l| < LABEL_MAX && NoNul(l) && WellFormed(l)
  }

  predicate ProperLabels(ls: seq<Text>) {
    forall i :: 0 <= i < |ls| ==> ProperLabel(ls[i])
  }

  predicate IsDigit(b: Byte) {
    48 <= b <= 57
  }

  // ---------------------------------------------------------------- reading one label

  /** A label together with the text after it. */
  datatype Cut = Cut(text: Text, rest: Text)

  /** One step of the label grammar: the end, a dot, a byte written with `width` characters, or an error. */
  datatype Token = End | Separator | Char(b: Byte, width: nat) | Malformed

  function Digit(b: Byte): (d: int)
    requires IsDigit(b)
    ensures 0 <= d <= 9
  {
    var i: int := b;
    i - 48
  }

  /** The value of the decimal escape that starts at name[1]; 0 stands for none. */
  function DecimalEscape(name: Text): (n: int)
    requires |name| >= 2
    ensures 0 <= n <= 999
  {
    if |name| >= 4 && IsDigit(name[1]) && IsDigit(name[2]) && IsDigit(name[3]) then
      Digit(name[1]) * 100 + Digit(name[2]) * 10 + Digit(name[3])
    else
      0
  }

  function NextToken(name: Text): (t: Token)
    ensures t.Char? ==> 1 <= t.width <= |name| && (NoNul(name) ==> t.b != 0)
  {
    if name == [] then End
    else if name[0] == DOT then Separator
    else if name[0] != BACKSLASH then Char(name[0], 1)
    else if |name| == 1 then Malformed
    else if name[1] == BACKSLASH || name[1] == DOT then Char(name[1], 2)
    else if 0 < DecimalEscape(name) <= 255 then Char(DecimalEscape(name), 4)
    else Malformed
  }

  /** The grammar of a label: plain bytes and escapes up to a dot or the end. */
  function Lex(name: Text): (c: Option<Cut>)
    ensures c.Some? ==> |c.value.text| + |c.value.rest| <= |name|
    ensures c.Some? && name != [] ==> |c.value.rest| < |name|
    ensures c.Some? && NoNul(name) ==> NoNul(c.value.text) && NoNul(c.value.rest)
  {
    match NextToken(name)
    case End => Some(Cut([], []))
    case Separator => Some(Cut([], name[1..]))
    case Malformed => None
    case Char(b, width) => Glue([b], Lex(name[width..]))
  }

  function Glue(front: Text, c: Option<Cut>): Option<Cut> {
    if c.Some? then Some(Cut(front + c.value.text, c.value.rest)) else None
  }

  /** Escapes that stand for no byte: a backslash at the end, before anything but a dot, a backslash or three digits, or
      before a number that is 0 or above 255. */
  lemma BadEscapes(s: Text)
    ensures NextToken(s).Malformed? <==>
              && s != [] && s[0] == 92
              && (|s| == 1
                  || (s[1] != 46 && s[1] != 92
                      && !(|s| >= 4 && 48 <= s[1] <= 57 && 48 <= s[2] <= 57 && 48 <= s[3] <= 57
                           && var x: int, y: int, z: int := s[1], s[2], s[3];
                              0 < (x - 48) * 100 + (y - 48) * 10 + (z - 48) <= 255)))
  {
  }

  /** What reading one token does. */
  lemma LexStep(s: Text)
    ensures s == [] ==> NextToken(s).End? && Lex(s) == Some(Cut([], []))
    ensures s != [] ==> !NextToken(s).End?
    ensures NextToken(s).Char? ==> Lex(s) == Glue([NextToken(s).b], Lex(s[NextToken(s).width..]))
    ensures NextToken(s).Separator? ==> s != [] && Lex(s) == Some(Cut([], s[1..]))
    ensures NextToken(s).Malformed? ==> Lex(s) == None
  {
  }

  lemma GlueGlue(a: Text, b: Text, c: Option<Cut>)
    ensures Glue(a, Glue(b, c)) == Glue(a + b, c)
  {
    if c.Some? {
      assert a + (b + c.value.text) == a + b + c.value.text;
    }
  }

  /** What avahi_unescape_label makes of the first label of a name. */
  function Unescape(name: Text): (c: Option<Cut>)
    ensures c.Some? ==> |c.value.text| + |c.value.rest| <= |name|
    ensures c.Some? && name != [] ==> |c.value.rest| < |name|
    ensures c.Some? && NoNul(name) ==> NoNul(c.value.text) && NoNul(c.value.rest)
  {
    var c := Lex(name);
    if c.Some? && |c.value.text| < LABEL_MAX && WellFormed(c.value.text) then c else None
  }

  /** Reads what is at position p of name. */
  method ReadToken(name: Text, p: nat) returns (t: Token)
    requires NoNul(name) && p <= |name|
    ensures t == NextToken(name[p..])
  {
    if CharAt(name, p) == DOT {
      return Separator;
    }
    if CharAt(name, p) == 0 {
      return End;
    }
    if name[p] == BACKSLASH {
      if CharAt(name, p + 1) == 0 {
        return Malformed;
      } else if name[p + 1] == BACKSLASH || name[p + 1] == DOT {
        return Char(name[p + 1], 2);
      } else if IsDigit(name[p + 1]) {
        if !IsDigit(CharAt(name, p + 2)) || !IsDigit(CharAt(name, p + 3)) {
          return Malformed;
        }
        var n := Digit(name[p + 1]) * 100 + Digit(name[p + 2]) * 10 + Digit(name[p + 3]);
        if n > 255 || n == 0 {
          return Malformed;
        }
        return Char(n, 4);
      } else {
        return Malformed;
      }
    }
    return Char(name[p], 1);
  }

  /** One step further in a label of which d was read. */
  lemma LexAt(name: Text, p: nat, d: Text)
    requires p <= |name|
    ensures var t := NextToken(name[p..]);
            && (t.Char? ==> p + t.width <= |name|)
            && Glue(d, Lex(name[p..])) ==
               match t
               case End => Some(Cut(d, []))
               case Separator => Some(Cut(d, name[p + 1..]))
               case Malformed => None
               case Char(b, width) => Glue(d + [b], Lex(name[p + width..]))
    ensures p == |name| <==> NextToken(name[p..]).End?
  {
    hide Lex, NextToken;
    var t := NextToken(name[p..]);
    LexStep(name[p..]);
    assert d + [] == d;
    if t.Char? {
      assert name[p..][t.width..] == name[p + t.width..];
      GlueGlue(d, [t.b], Lex(name[p + t.width..]));
    } else if t.Separator? {
      assert name[p..][1..] == name[p + 1..];
    }
  }

  /** Reads the first label of name and unescapes it into a buffer of LABEL_MAX bytes. */
  method UnescapeLabel(name: Text) returns (r: Option<Cut>)
    requires NoNul(name)
    ensures r == Unescape(name)
  {
    hide Lex, NextToken, WellFormed;
    var p, d: Text := 0, [];
    GlueNothing(name);
    while true
      invariant p <= |name| && |d| <= LABEL_MAX && NoNul(d)
      invariant Lex(name) == Glue(d, Lex(name[p..]))
      decreases |name| - p
    {
      if |d| >= LABEL_MAX {
        return None;
      }
      var t := ReadToken(name, p);
      LexAt(name, p, d);
      match t {
        case End =>
          break;
        case Separator =>
          p := p + 1;
          break;
        case Malformed =>
          return None;
        case Char(b, width) =>
          d := d + [b];
          p := p + width;
      }
    }
    assert d + [] == d;
    var valid := Utf8Valid(d);
    return if valid then Some(Cut(d, name[p..])) else None;
  }

  lemma GlueNothing(name: Text)
    ensures name[0..] == name && Glue([], Lex(name)) == Lex(name)
  {
    hide Lex;
    if Lex(name).Some? {
      assert [] + Lex(name).value.text == Lex(name).value.text;
    }
  }

  predicate CutAtDot(name: Text, c: Cut) {
    && |c.text| < |name| && c.text == name[..|c.text|] && DOT !in c.text
    && name[|c.text|] == DOT && c.rest == name[|c.text| + 1..]
  }

  /** Where a text without escapes is cut. */
  lemma {:induction false} LexUnescaped(name: Text)
    requires BACKSLASH !in name
    ensures Lex(name).Some?
    ensures if DOT in name then CutAtDot(name, Lex(name).value) else Lex(name).value == Cut(name, [])
  {
    hide Lex;
    LexStep(name);
    if name != [] && name[0] != DOT {
      LexUnescaped(name[1..]);
      var c := Lex(name[1..]).value;
      assert NextToken(name) == Char(name[0], 1);
      assert Lex(name).value.text == [name[0]] + c.text;
      assert name == [name[0]] + name[1..];
    }
  }

  // ---------------------------------------------------------------- writing one label

  predicate Plain(b: Byte) {
    b == UNDERSCORE || b == 45 || 48 <= b <= 57 || 97 <= b <= 122 || 65 <= b <= 90
  }

  function EscapeByte(b: Byte): (t: Text)
    ensures 1 <= |t| <= 4
  {
    if b == DOT || b == BACKSLASH then [BACKSLASH, b]
    else if Plain(b) then [b]
    else
      var i: int := b;
      [BACKSLASH, 48 + i / 100, 48 + i / 10 % 10, 48 + i % 10]
  }

  function Escape(l: Text): (t: Text)
    ensures |l| <= |t| <= 4 * |l|
  {
    if l == [] then [] else EscapeByte(l[0]) + Escape(l[1..])
  }

  lemma {:induction false} EscapeConcat(a: Text, b: Text)
    ensures Escape(a + b) == Escape(a) + Escape(b)
  {
    hide EscapeByte;
    if a == [] {
      assert a + b == b;
    } else {
      EscapeConcat(a[1..], b);
      assert (a + b)[1..] == a[1..] + b;
      ConcatAssociative(EscapeByte(a[0]), Escape(a[1..]), Escape(b));
    }
  }

  lemma EscapeStep(src: Text, i: nat)
    requires i < |src|
    ensures Escape(src[..i + 1]) == Escape(src[..i]) + EscapeByte(src[i])
    ensures |Escape(src[..i + 1])| <= |Escape(src)|
  {
    assert src[..i + 1] == src[..i] + [src[i]];
    EscapeConcat(src[..i], [src[i]]);
    assert Escape([src[i]]) == EscapeByte(src[i]) + Escape([]);
    assert src == src[..i + 1] + src[i + 1..];
    EscapeConcat(src[..i + 1], src[i + 1..]);
  }

  /** What is written for one byte when `left` bytes of room remain; nothing if it does not fit. */
  method WriteEscaped(b: Byte, left: nat) returns (e: Text)
    ensures e == if |EscapeByte(b)| < left then EscapeByte(b) else []
  {
    if b == DOT || b == BACKSLASH {
      if left < 3 {
        return [];
      }
      return [BACKSLASH, b];
    } else if Plain(b) {
      if left < 2 {
        return [];
      }
      return [b];
    } else {
      if left < 5 {
        return [];
      }
      var v: int := b;
      return [BACKSLASH, 48 + v / 100, 48 + v / 10 % 10, 48 + v % 10];
    }
  }

  /** How many bytes at the front of a label are written, escaped, before room runs out. */
  ghost function Fitting(src: Text, size: nat): (n: nat)
    ensures n <= |src|
  {
    if src == [] || |EscapeByte(src[0])| >= size then 0 else 1 + Fitting(src[1..], size - |EscapeByte(src[0])|)
  }

  lemma {:induction false} FittingFits(src: Text, size: nat)
    requires size > 0
    ensures |Escape(src[..Fitting(src, size)])| < size
    ensures Fitting(src, size) == |src| <==> |Escape(src)| < size
  {
    hide EscapeByte;
    if src != [] && |EscapeByte(src[0])| < size {
      var n := Fitting(src, size);
      FittingFits(src[1..], size - |EscapeByte(src[0])|);
      assert src[..n][1..] == src[1..][..n - 1];
    }
  }

  /** Appends src, escaped, to dest, in a buffer with room for `size` more bytes including the NUL. */
  method EscapeLabel(src: Text, dest: Text, size: nat) returns (ok: bool, r: Text, left: nat)
    requires size > 0
    ensures ok <==> |Escape(src)| < size
    ensures ok <==> Fitting(src, size) == |src|
    ensures r == dest + Escape(src[..Fitting(src, size)]) && 0 < left == size - |Escape(src[..Fitting(src, size)])|
    ensures ok ==> r == dest + Escape(src) && left == size - |Escape(src)|
  {
    hide Fitting, EscapeByte;
    r, left := dest, size;
    var i := 0;
    FittingFits(src, size);
    assert src[0..] == src && src[..|src|] == src;
    while i < |src|
      invariant i <= |src| && r == dest + Escape(src[..i]) && 0 < left == size - |Escape(src[..i])|
      invariant Fitting(src, size) == i + Fitting(src[i..], left)
    {
      EscapeStep(src, i);
      FittingStep(src, i, left);
      ConcatAssociative(dest, Escape(src[..i]), EscapeByte(src[i]));
      var e := WriteEscaped(src[i], left);
      if e == [] {
        return false, r, left;
      }
      r, left := r + e, left - |e|;
      i := i + 1;
    }
    FittingNothing(src[i..], left);
    ok := true;
  }

  lemma FittingStep(src: Text, i: nat, left: nat)
    requires i < |src|
    ensures Fitting(src[i..], left) ==
            if |EscapeByte(src[i])| >= left then 0 else 1 + Fitting(src[i + 1..], left - |EscapeByte(src[i])|)
  {
    hide EscapeByte;
    assert src[i..][1..] == src[i + 1..];
  }

  lemma FittingNothing(src: Text, left: nat)
    requires src == []
    ensures Fitting(src, left) == 0
  {
  }

  // ---------------------------------------------------------------- unescape inverts escape

  lemma ThreeDigits(i: nat)
    requires i < 256
    ensures i / 100 * 100 + i / 10 % 10 * 10 + i % 10 == i && i / 100 <= 2
  {
  }

  lemma DecimalToken(b: Byte, r: Text)
    requires b != 0 && b != DOT && b != BACKSLASH && !Plain(b)
    ensures NextToken(EscapeByte(b) + r) == Char(b, 4) && |EscapeByte(b)| == 4
  {
    hide NextToken, DecimalEscape, IsDigit;
    var i: int := b;
    ThreeDigits(i);
    DecimalRead(EscapeByte(b) + r, i / 100, i / 10 % 10, i % 10);
  }

  lemma DecimalRead(s: Text, x: nat, y: nat, z: nat)
    requires |s| >= 4 && s[0] == BACKSLASH && x <= 9 && y <= 9 && z <= 9 && 0 < x * 100 + y * 10 + z <= 255
    requires s[1] == 48 + x && s[2] == 48 + y && s[3] == 48 + z
    ensures NextToken(s) == Char(x * 100 + y * 10 + z, 4)
  {
    assert Digit(s[1]) == x && Digit(s[2]) == y && Digit(s[3]) == z;
    assert DecimalEscape(s) == x * 100 + y * 10 + z;
  }

  lemma TokenOfEscape(b: Byte, r: Text)
    requires b != 0
    ensures NextToken(EscapeByte(b) + r) == Char(b, |EscapeByte(b)|)
  {
    hide NextToken, EscapeByte, Plain;
    if b != DOT && b != BACKSLASH && !Plain(b) {
      DecimalToken(b, r);
    } else {
      EscapedToken(b, r);
    }
  }

  lemma EscapedToken(b: Byte, r: Text)
    requires b == DOT || b == BACKSLASH || Plain(b)
    ensures NextToken(EscapeByte(b) + r) == Char(b, |EscapeByte(b)|)
  {
  }

  /** Reading an escaped label gives the label back, up to the dot or end that follows it. */
  lemma {:induction false} LexEscape(l: Text, r: Text)
    requires NoNul(l) && (r == [] || r[0] == DOT)
    ensures Lex(Escape(l) + r) == Some(Cut(l, if r == [] then [] else r[1..]))
  {
    hide Lex, EscapeByte;
    var s := Escape(l) + r;
    LexStep(s);
    if l == [] {
      assert s == r;
    } else {
      var w := |EscapeByte(l[0])|;
      assert s == EscapeByte(l[0]) + (Escape(l[1..]) + r);
      TokenOfEscape(l[0], Escape(l[1..]) + r);
      assert s[w..] == Escape(l[1..]) + r;
      LexEscape(l[1..], r);
      assert [l[0]] + l[1..] == l;
    }
  }

  lemma UnescapeEscape(l: Text, r: Text)
    requires ProperLabel(l) && (r == [] || r[0] == DOT)
    ensures Unescape(Escape(l) + r) == Some(Cut(l, if r == [] then [] else r[1..]))
  {
    LexEscape(l, r);
  }

  // ---------------------------------------------------------------- names

  function GlueLabels(front: seq<Text>, ls: Option<seq<Text>>): Option<seq<Text>> {
    if ls.Some? then Some(front + ls.value) else None
  }

  /** The labels of a name, as long as unescaping succeeds. */
  function LabelsOf(s: Text): (ls: Option<seq<Text>>)
    decreases |s|
  {
    if s == [] then Some([])
    else
      var c := Unescape(s);
      if c.None? then None else GlueLabels([c.value.text], LabelsOf(c.value.rest))
  }

  /** All labels unescape, and none is empty unless the name is the root, written "" or ".". */
  predicate WellFormedName(s: Text) {
    && LabelsOf(s).Some?
    && (LabelsOf(s).value == [[]] || forall i :: 0 <= i < |LabelsOf(s).value| ==> LabelsOf(s).value[i] != [])
  }

  /** What avahi_is_valid_domain_name accepts. */
  predicate NameOk(t: Text) {
    |t| < DOMAIN_NAME_MAX && WellFormedName(t)
  }

  /** The labels a well-formed name stands for; the root has none. */
  function Labels(s: Text): (ls: seq<Text>)
    requires WellFormedName(s)
  {
    var ls := LabelsOf(s).value;
    if ls == [[]] then [] else ls
  }

  lemma {:induction false} LabelsProper(s: Text)
    requires NoNul(s) && LabelsOf(s).Some?
    ensures forall i :: 0 <= i < |LabelsOf(s).value| && LabelsOf(s).value[i] != [] ==> ProperLabel(LabelsOf(s).value[i])
    decreases |s|
  {
    if s != [] {
      LabelsProper(Unescape(s).value.rest);
    }
  }

  /** The text of a list of labels, escaped and separated by dots. */
  function Join(ls: seq<Text>): Text {
    if |ls| == 0 then []
    else if |ls| == 1 then Escape(ls[0])
    else Escape(ls[0]) + [DOT] + Join(ls[1..])
  }

  lemma {:induction false} JoinAppend(ls: seq<Text>, l: Text)
    requires ls != []
    ensures Join(ls + [l]) == Join(ls) + [DOT] + Escape(l)
  {
    var e := ls + [l];
    if |ls| == 1 {
      assert e[1..] == [l];
    } else {
      JoinAppend(ls[1..], l);
      assert e[1..] == ls[1..] + [l];
      ConcatAssociative(Escape(ls[0]) + [DOT], Join(ls[1..]), [DOT] + Escape(l));
      ConcatAssociative(Join(ls[1..]), [DOT], Escape(l));
      ConcatAssociative(Join(ls), [DOT], Escape(l));
    }
  }

  lemma {:induction false} JoinNonEmpty(ls: seq<Text>)
    requires ls != [] && ProperLabels(ls)
    ensures Join(ls) != []
  {
  }

  /** Splitting the text of a list of proper labels gives the list back. */
  lemma {:induction false} LabelsOfJoin(ls: seq<Text>)
    requires ProperLabels(ls)
    ensures LabelsOf(Join(ls)) == Some(ls)
    decreases |ls|
  {
    if ls != [] {
      JoinNonEmpty(ls);
      if |ls| == 1 {
        UnescapeEscape(ls[0], []);
        assert Escape(ls[0]) + [] == Escape(ls[0]);
        assert [ls[0]] + [] == ls;
      } else {
        assert ([DOT] + Join(ls[1..]))[1..] == Join(ls[1..]);
        ConcatAssociative(Escape(ls[0]), [DOT], Join(ls[1..]));
        UnescapeEscape(ls[0], [DOT] + Join(ls[1..]));
        LabelsOfJoin(ls[1..]);
        assert [ls[0]] + ls[1..] == ls;
      }
    }
  }

  /** A NUL in a label is escaped as zero, which cannot be read. */
  lemma {:induction false} LexEscapeNul(l: Text, r: Text)
    requires 0 in l
    ensures Lex(Escape(l) + r).None?
  {
    var s := Escape(l) + r;
    ConcatAssociative(EscapeByte(l[0]), Escape(l[1..]), r);
    if l[0] != 0 {
      TokenOfEscape(l[0], Escape(l[1..]) + r);
      LexEscapeNul(l[1..], r);
      assert s[|EscapeByte(l[0])|..] == Escape(l[1..]) + r;
    } else {
      assert Digit(s[1]) == 0 && Digit(s[2]) == 0 && Digit(s[3]) == 0;
    }
  }

  /** The text of a list of labels can only be read when all of them are proper. */
  lemma {:induction false} ReadableJoin(ls: seq<Text>)
    requires LabelsOf(Join(ls)).Some? && forall i :: 0 <= i < |ls| ==> 0 < |ls[i]| < LABEL_MAX
    ensures ProperLabels(ls)
    decreases |ls|
  {
    hide Lex, EscapeByte, WellFormed;
    if ls != [] {
      var l, rest: Text := ls[0], if |ls| == 1 then [] else [DOT] + Join(ls[1..]);
      assert Join(ls) == Escape(l) + rest;
      if 0 in l {
        LexEscapeNul(l, rest);
      } else {
        LexEscape(l, rest);
      }
      if |ls| > 1 {
        assert rest[1..] == Join(ls[1..]);
        ReadableJoin(ls[1..]);
      }
    }
  }

  lemma {:induction false} EscapeNoNul(l: Text)
    ensures NoNul(Escape(l))
  {
    if l != [] {
      EscapeNoNul(l[1..]);
    }
  }

  lemma {:induction false} JoinNoNul(ls: seq<Text>)
    ensures NoNul(Join(ls))
  {
    if ls != [] {
      EscapeNoNul(ls[0]);
      JoinNoNul(ls[1..]);
    }
  }

  /** The canonical text of a name. */
  function NormalForm(s: Text): Text
    requires WellFormedName(s)
  {
    Join(Labels(s))
  }

  lemma LabelsAreProper(s: Text)
    requires NoNul(s) && WellFormedName(s)
    ensures ProperLabels(Labels(s))
  {
    LabelsProper(s);
  }

  /** The normal form names the same labels. */
  lemma NormalFormLabels(s: Text)
    requires NoNul(s) && WellFormedName(s)
    ensures WellFormedName(NormalForm(s)) && Labels(NormalForm(s)) == Labels(s)
  {
    LabelsAreProper(s);
    LabelsOfJoin(Labels(s));
  }

  /** Normalising twice changes nothing more. */
  lemma NormalFormIdempotent(s: Text)
    requires NoNul(s) && WellFormedName(s)
    ensures WellFormedName(NormalForm(s)) && NormalForm(NormalForm(s)) == NormalForm(s)
  {
    NormalFormLabels(s);
  }

  // ---------------------------------------------------------------- avahi_normalize_name

  /** What a buffer holds after labels were written into it, with a dot between any two, and the room behind that. A
      label that does not fit is broken off, and if it is the last one no NUL follows; but nothing at all still has the
      NUL that the buffer begins with. Overrun: there is not even room for a NUL behind a dot, which trips an
      assertion. */
  datatype Filled = Filled(text: Text, left: nat, ended: bool) | Overrun

  ghost function Fill(ls: seq<Text>, size: nat): (f: Filled)
    requires size > 0
    ensures f.Filled? ==> |f.text| + f.left == size && f.left > 0
  {
    if ls == [] then Filled([], size, true)
    else
      var f := Fill(ls[..|ls| - 1], size);
      if f.Overrun? || (|ls| > 1 && f.left == 1) then Overrun else FillLabel(f, ls[|ls| - 1], |ls| > 1)
  }

  ghost function FillLabel(f: Filled, l: Text, dot: bool): (g: Filled)
    requires f.Filled? && f.left > if dot then 1 else 0
    ensures g.Filled? && |g.text| + g.left == |f.text| + f.left && g.left > 0
  {
    var text, left := if dot then f.text + [DOT] else f.text, if dot then f.left - 1 else f.left;
    FittingFits(l, left);
    var written := Escape(l[..Fitting(l, left)]);
    Filled(text + written, left - |written|, Fitting(l, left) == |l| || text + written == [])
  }

  /** The labels up to the first one that is malformed or empty. */
  ghost function Readable(s: Text): seq<Text>
    decreases |s|
  {
    if s == [] || Unescape(s).None? || Unescape(s).value.text == [] then []
    else [Unescape(s).value.text] + Readable(Unescape(s).value.rest)
  }

  /** The outcome of normalising a name into a buffer. */
  datatype Normalized = Null | Written(text: Text) | Unterminated(text: Text) | Overran

  ghost function NormalizedInto(s: Text, size: nat): Normalized
    requires size > 0
  {
    var f := Fill(Readable(s), size);
    if f.Overrun? then Overran
    else if !WellFormedName(s) then Null
    else if f.ended then Written(f.text)
    else Unterminated(f.text)
  }

  /** `done` are the labels read so far, none of them empty, and `rest` is what is left to read. */
  ghost predicate Reading(s: Text, done: seq<Text>, rest: Text) {
    && NoNul(rest)
    && LabelsOf(s) == GlueLabels(done, LabelsOf(rest))
    && forall i :: 0 <= i < |done| ==> done[i] != []
  }

  lemma ReadingStart(s: Text)
    requires NoNul(s)
    ensures Reading(s, [], s)
  {
    assert LabelsOf(s).Some? ==> [] + LabelsOf(s).value == LabelsOf(s).value;
  }

  lemma ReadingBad(s: Text, done: seq<Text>, rest: Text)
    requires Reading(s, done, rest) && rest != [] && Unescape(rest).None?
    ensures !WellFormedName(s)
  {
  }

  lemma GlueLabelsStep(done: seq<Text>, l: Text, rest: Option<seq<Text>>)
    ensures GlueLabels(done, GlueLabels([l], rest)) == GlueLabels(done + [l], rest)
  {
    if rest.Some? {
      assert done + ([l] + rest.value) == done + [l] + rest.value;
    }
  }

  lemma ReadingEmpty(s: Text, done: seq<Text>, rest: Text)
    requires Reading(s, done, rest) && rest != [] && Unescape(rest).Some? && Unescape(rest).value.text == []
    ensures done == [] && Unescape(rest).value.rest == [] ==> WellFormedName(s) && Labels(s) == []
    ensures done != [] || Unescape(rest).value.rest != [] ==> !WellFormedName(s)
  {
    var after := Unescape(rest).value.rest;
    GlueLabelsStep(done, [], LabelsOf(after));
    if LabelsOf(s).Some? {
      var all := LabelsOf(s).value;
      assert all == done + [[]] + LabelsOf(after).value;
      assert all[|done|] == [];
      if after != [] {
        LabelsOfSomething(after);
        assert |all| > 1;
      }
    }
  }

  lemma LabelsOfSomething(s: Text)
    requires s != [] && LabelsOf(s).Some?
    ensures LabelsOf(s).value != []
  {
  }

  lemma ReadingStep(s: Text, done: seq<Text>, rest: Text)
    requires Reading(s, done, rest) && rest != [] && Unescape(rest).Some? && Unescape(rest).value.text != []
    ensures Reading(s, done + [Unescape(rest).value.text], Unescape(rest).value.rest)
  {
    GlueLabelsStep(done, Unescape(rest).value.text, LabelsOf(Unescape(rest).value.rest));
  }

  lemma ReadingDone(s: Text, done: seq<Text>)
    requires Reading(s, done, [])
    ensures WellFormedName(s) && Labels(s) == done
  {
    assert done + [] == done;
    assert done != [] ==> done[0] != [];
  }

  lemma {:induction false} JoinGrows(a: seq<Text>, b: seq<Text>)
    ensures |Join(a)| <= |Join(a + b)|
    decreases |b|
  {
    if b == [] {
      assert a + b == a;
    } else {
      assert a + b == (a + [b[0]]) + b[1..];
      JoinGrows(a + [b[0]], b[1..]);
      if a != [] {
        JoinAppend(a, b[0]);
      }
    }
  }

  lemma FillMore(ls: seq<Text>, l: Text, size: nat)
    requires size > 0
    ensures Fill(ls + [l], size) ==
            var f := Fill(ls, size);
            if f.Overrun? || (ls != [] && f.left == 1) then Overrun else FillLabel(f, l, ls != [])
  {
    hide FillLabel;
    assert (ls + [l])[..|ls|] == ls;
  }

  lemma FillNothing(size: nat)
    requires size > 0
    ensures Fill([], size) == Filled([], size, true) && Join([]) == []
  {
  }

  lemma JoinOne(l: Text)
    ensures Join([l]) == Escape(l) == [] + Escape(l)
  {
  }

  /** Once the assertion has tripped nothing follows. */
  lemma {:induction false} FillStays(ls: seq<Text>, more: seq<Text>, size: nat)
    requires size > 0 && Fill(ls, size).Overrun?
    ensures Fill(ls + more, size).Overrun?
    decreases |more|
  {
    hide Fill;
    if more == [] {
      assert ls + more == ls;
    } else {
      FillMore(ls, more[0], size);
      assert ls + more == (ls + [more[0]]) + more[1..];
      FillStays(ls + [more[0]], more[1..], size);
    }
  }

  /** Labels that have room are written as they are joined. */
  lemma {:induction false} FillWhole(ls: seq<Text>, size: nat)
    requires size > 0
    ensures |Join(ls)| < size ==> Fill(ls, size) == Filled(Join(ls), size - |Join(ls)|, true)
    decreases |ls|
  {
    hide Fill, Join, Fitting, Escape;
    if ls == [] {
      FillNothing(size);
    } else {
      var front, l := ls[..|ls| - 1], ls[|ls| - 1];
      assert ls == front + [l];
      FillMore(front, l, size);
      if |Join(ls)| < size {
        JoinGrows(front, [l]);
        FillWhole(front, size);
        var left := size - |Join(front)|;
        if front != [] {
          JoinAppend(front, l);
          left := left - 1;
        } else {
          FillNothing(size);
          JoinOne(l);
          assert [] + [l] == [l];
        }
        FittingFits(l, left);
        assert l[..|l|] == l;
      }
    }
  }

  lemma {:induction false} ReadableLabels(s: Text)
    requires LabelsOf(s).Some?
    ensures Readable(s) <= LabelsOf(s).value
    ensures |Readable(s)| < |LabelsOf(s).value| ==> LabelsOf(s).value[|Readable(s)|] == []
    decreases |s|
  {
    if s != [] {
      var c := Unescape(s).value;
      ReadableLabels(c.rest);
      assert LabelsOf(s).value == [c.text] + LabelsOf(c.rest).value;
    }
  }

  /** Of the text of any labels, the first of them that are proper are read. */
  lemma {:induction false} ReadableOfJoin(ls: seq<Text>)
    requires forall i :: 0 <= i < |ls| ==> 0 < |ls[i]| < LABEL_MAX
    ensures Readable(Join(ls)) <= ls && |Join(Readable(Join(ls)))| <= |Join(ls)|
    decreases |ls|
  {
    hide Lex, EscapeByte, WellFormed, Escape;
    if ls == [] {
      assert Join(ls) == [];
    } else {
      var l, rest: Text := ls[0], if |ls| == 1 then [] else [DOT] + Join(ls[1..]);
      assert Join(ls) == Escape(l) + rest;
      if 0 in l {
        LexEscapeNul(l, rest);
      } else {
        LexEscape(l, rest);
      }
      if |ls| > 1 {
        assert rest[1..] == Join(ls[1..]);
      }
      ReadableOfJoin(ls[1..]);
    }
    PrefixShorter(ls, Readable(Join(ls)));
  }

  lemma PrefixShorter(ls: seq<Text>, begin: seq<Text>)
    requires begin <= ls
    ensures |Join(begin)| <= |Join(ls)|
  {
    hide Join;
    assert ls == begin + ls[|begin|..];
    JoinGrows(begin, ls[|begin|..]);
  }

  lemma ReadableWhole(s: Text)
    requires WellFormedName(s)
    ensures Readable(s) == Labels(s)
  {
    hide LabelsOf, Readable;
    ReadableLabels(s);
    NoEmptyReadable(s);
    var ls, n := LabelsOf(s).value, |Readable(s)|;
    if n < |ls| {
      assert ls[n] == [];
      assert Readable(s) == [] && ls == [[]];
    } else {
      assert Readable(s) == ls[..n] == ls;
      assert n > 0 ==> ls[0] == Readable(s)[0] != [];
    }
  }

  lemma {:induction false} NoEmptyReadable(s: Text)
    ensures forall i :: 0 <= i < |Readable(s)| ==> Readable(s)[i] != []
    decreases |s|
  {
    if s != [] && Unescape(s).Some? && Unescape(s).value.text != [] {
      NoEmptyReadable(Unescape(s).value.rest);
    }
  }

  /** A well-formed name gives its normal form exactly when there is room for it, and NULL never; an ill-formed one
      gives NULL or trips the assertion. */
  lemma NormalizedWhole(s: Text, size: nat)
    requires size > 0
    ensures WellFormedName(s) ==> (NormalizedInto(s, size) == Written(NormalForm(s)) <==> |NormalForm(s)| < size)
    ensures WellFormedName(s) ==> !NormalizedInto(s, size).Null?
    ensures !WellFormedName(s) ==> NormalizedInto(s, size).Null? || NormalizedInto(s, size).Overran?
  {
    hide Fill, Readable, WellFormedName, Labels, Join;
    if WellFormedName(s) {
      ReadableWhole(s);
      FillWhole(Labels(s), size);
    }
  }

  /** The assertion trips where labels fill the buffer to the last byte before the NUL and another one follows. */
  lemma NormalizingAborts(s: Text, size: nat, ls: seq<Text>, more: seq<Text>)
    requires size > 0 && WellFormedName(s) && Labels(s) == ls + more && ls != [] && more != []
    requires |Join(ls)| == size - 1
    ensures NormalizedInto(s, size).Overran?
  {
    hide Fill, Readable, WellFormedName, Labels, Join;
    ReadableWhole(s);
    FillWhole(ls, size);
    FillMore(ls, more[0], size);
    FillStays(ls + [more[0]], more[1..], size);
    assert ls + [more[0]] + more[1..] == ls + more;
  }

  /** A label that does not fit is broken off: at the end of the name the text has no end, and before another label that
      does fit the text goes on behind it. */
  lemma NormalizingBreaksOff(s: Text, size: nat, ls: seq<Text>, l: Text, more: seq<Text>)
    requires WellFormedName(s) && Labels(s) == ls + [l] + more && ls != [] && |Join(ls)| + 1 < size
    requires |Escape(l)| >= size - |Join(ls)| - 1
    ensures var begun := Join(ls) + [DOT] + Escape(l[..Fitting(l, size - |Join(ls)| - 1)]);
            && (more == [] ==> NormalizedInto(s, size) == Unterminated(begun))
            && (|more| == 1 && |begun| + 1 + |Escape(more[0])| < size ==>
                  NormalizedInto(s, size) == Written(begun + [DOT] + Escape(more[0])))
  {
    hide Fill, Readable, WellFormedName, Labels, Join, Escape, Fitting;
    var room := size - |Join(ls)| - 1;
    ReadableWhole(s);
    FillWhole(ls, size);
    FillMore(ls, l, size);
    FittingFits(l, room);
    var begun := Join(ls) + [DOT] + Escape(l[..Fitting(l, room)]);
    if more == [] {
      assert ls + [l] + more == ls + [l];
    } else if |more| == 1 && |begun| + 1 + |Escape(more[0])| < size {
      FillMore(ls + [l], more[0], size);
      assert more == [more[0]] && more[0][..|more[0]|] == more[0];
      FittingFits(more[0], size - |begun| - 1);
    }
  }

  /** Labels with dots in between, not escaped. */
  function Raw(ls: seq<Text>): Text {
    if ls == [] then [] else if |ls| == 1 then ls[0] else ls[0] + [DOT] + Raw(ls[1..])
  }

  predicate RawLabel(l: Text) {
    ProperLabel(l) && DOT !in l && BACKSLASH !in l
  }

  lemma FirstDot(s: Text, i: nat, j: nat)
    requires i < |s| && j < |s| && s[i] == s[j] == DOT && DOT !in s[..i] && DOT !in s[..j]
    ensures i == j
  {
    assert forall k :: 0 <= k < i ==> s[k] in s[..i];
    assert forall k :: 0 <= k < j ==> s[k] in s[..j];
  }

  /** Labels that need no escapes to be read. */
  lemma {:induction false} RawLabels(ls: seq<Text>)
    requires ls != [] && forall i :: 0 <= i < |ls| ==> RawLabel(ls[i])
    ensures LabelsOf(Raw(ls)) == Some(ls) && NoNul(Raw(ls)) && BACKSLASH !in Raw(ls) && Raw(ls) != []
    decreases |ls|
  {
    hide Lex, WellFormed;
    var s, l := Raw(ls), ls[0];
    assert RawLabel(l);
    if |ls| == 1 {
      LexUnescaped(s);
      assert [l] + [] == ls && LabelsOf([]) == Some([]);
    } else {
      RawLabels(ls[1..]);
      LexUnescaped(s);
      assert s[|l|] == DOT;
      var c := Lex(s).value;
      assert c.text == s[..|c.text|] && s[..|l|] == l;
      FirstDot(s, |c.text|, |l|);
      assert c == Cut(l, Raw(ls[1..]));
      assert [l] + ls[1..] == ls;
    }
  }

  lemma {:induction false} AllEscaped(l: Text)
    requires forall i :: 0 <= i < |l| ==> l[i] != DOT && l[i] != BACKSLASH && !Plain(l[i])
    ensures |Escape(l)| == 4 * |l|
  {
    if l != [] {
      AllEscaped(l[1..]);
    }
  }

  lemma OneMore(l: Text, ls: seq<Text>)
    requires ls != []
    ensures Raw([l] + ls) == l + [DOT] + Raw(ls) && Join([l] + ls) == Escape(l) + [DOT] + Join(ls)
  {
    assert ([l] + ls)[1..] == ls;
  }

  lemma RawOne(l: Text)
    ensures Raw([l]) == l
  {
  }

  lemma FourMore(l: Text, ls: seq<Text>)
    requires ls != []
    ensures var all := [l, l, l, l] + ls;
            |Raw(all)| == 4 * |l| + 4 + |Raw(ls)| && |Join(all)| == 4 * |Escape(l)| + 4 + |Join(ls)|
  {
    hide Raw, Join, Escape;
    OneMore(l, ls);
    OneMore(l, [l] + ls);
    OneMore(l, [l] + ([l] + ls));
    OneMore(l, [l] + ([l] + ([l] + ls)));
    assert [l, l, l, l] + ls == [l] + ([l] + ([l] + ([l] + ls)));
  }

  lemma LetterLengths(a: Byte)
    requires 97 <= a <= 122
    ensures Join([[a]]) == [a] && Raw([[a], [a]]) == [a, DOT, a]
  {
    assert Escape([a]) == EscapeByte(a) + Escape([]);
  }

  /** Such names are valid: four labels of 63 bytes that are all escaped, and two of one letter. The first five fill the
      buffer of avahi_normalize_name_strdup, and the assertion fails at the dot before the last. */
  lemma ValidNameAborts(l: Text, a: Byte)
    requires |l| == LABEL_MAX - 1 && 97 <= a <= 122 && forall i :: 0 <= i < |l| ==> 0 < l[i] < 32
    ensures var s := Raw([l, l, l, l] + [[a], [a]]);
            NoNul(s) && NameOk(s) && NormalizedInto(s, DOMAIN_NAME_MAX).Overran?
  {
    hide Escape, Join, Raw, LabelsOf, WellFormed, NormalizedInto, NormalForm;
    var letter := [a];
    var begin, s := [l, l, l, l] + [letter], Raw([l, l, l, l] + [letter, letter]);
    AsciiWellFormed(l);
    AsciiWellFormed(letter);
    AllEscaped(l);
    LetterLengths(a);
    FourMore(l, [letter, letter]);
    FourMore(l, [letter]);
    RawLabels([l, l, l, l] + [letter, letter]);
    assert [l, l, l, l] + [letter, letter] == begin + [letter];
    NormalizingAborts(s, DOMAIN_NAME_MAX, begin, [letter]);
  }

  /** Five such labels make a valid name too, and its normal form is left without an end. */
  lemma ValidNameUnterminated(l: Text)
    requires |l| == LABEL_MAX - 1 && forall i :: 0 <= i < |l| ==> 0 < l[i] < 32
    ensures var s := Raw([l, l, l, l] + [l]);
            NoNul(s) && NameOk(s) && NormalizedInto(s, DOMAIN_NAME_MAX).Unterminated?
  {
    hide Escape, Raw, LabelsOf, WellFormed, NormalizedInto, NormalForm, Fitting;
    var begin, s := [l, l, l] + [l], Raw([l, l, l, l] + [l]);
    AsciiWellFormed(l);
    AllEscaped(l);
    FourMore(l, [l]);
    RawLabels([l, l, l, l] + [l]);
    assert [l, l, l, l] + [l] == begin + [l] && begin + [l] + [] == begin + [l];
    JoinAppend(begin, l);
    JoinOne(l);
    RawOne(l);
    NormalizingBreaksOff(s, DOMAIN_NAME_MAX, begin, l, []);
  }

  /** What is left of a name that is being read. */
  lemma ReadableStep(done: seq<Text>, rest: Text)
    requires rest != [] && Unescape(rest).Some? && Unescape(rest).value.text != []
    ensures done + Readable(rest) == done + [Unescape(rest).value.text] + Readable(Unescape(rest).value.rest)
  {
    hide Unescape;
    var c := Unescape(rest).value;
    ConcatAssociative(done, [c.text], Readable(c.rest));
  }

  lemma ReadableEnd(done: seq<Text>, rest: Text)
    requires rest == [] || Unescape(rest).None? || Unescape(rest).value.text == []
    ensures done + Readable(rest) == done
  {
  }

  /** avahi_normalize_name */
  method NormalizeName(s: Text, size: nat) returns (r: Normalized)
    requires NoNul(s) && size > 0
    ensures r == NormalizedInto(s, size)
  {
    hide LabelsOf, Readable, Fill, Fitting, Unescape, Labels, WellFormedName;
    var empty, rest, out, left, ended := true, s, [], size, true;
    ghost var done: seq<Text> := [];
    ReadingStart(s);
    NothingFilled(s, size);
    while rest != []
      invariant Reading(s, done, rest) && Readable(s) == done + Readable(rest)
      invariant empty <==> done == []
      invariant Fill(done, size) == Filled(out, left, ended)
      decreases |rest|
    {
      var c := UnescapeLabel(rest);
      if c.None? {
        ReadingBad(s, done, rest);
        ReadableEnd(done, rest);
        return Null;
      }
      if c.value.text == [] {
        ReadingEmpty(s, done, rest);
        ReadableEnd(done, rest);
        if c.value.rest == [] && empty {
          return Written([]);
        }
        return Null;
      }
      ReadingStep(s, done, rest);
      ReadableStep(done, rest);
      FillMore(done, c.value.text, size);
      rest := c.value.rest;
      if !empty {
        out, left := out + [DOT], left - 1;
      }
      done := done + [c.value.text];
      if left == 0 {
        FillStays(done, Readable(rest), size);
        return Overran;
      }
      var ok;
      ok, out, left := EscapeLabel(c.value.text, out, left);
      ended := ok || out == [];
      empty := false;
    }
    ReadingDone(s, done);
    ReadableEnd(done, []);
    return if ended then Written(out) else Unterminated(out);
  }

  lemma NothingFilled(s: Text, size: nat)
    requires size > 0
    ensures Fill([], size) == Filled([], size, true) && [] + Readable(s) == Readable(s)
  {
  }

  // ---------------------------------------------------------------- validity

  /** avahi_is_valid_domain_name */
  method IsValidDomainName(t: Text) returns (r: bool)
    requires NoNul(t)
    ensures r <==> NameOk(t)
    ensures r <==> |t| < 1014 && LabelsOf(t).Some?
                   && (LabelsOf(t).value == [[]]
                       || forall i :: 0 <= i < |LabelsOf(t).value| ==> LabelsOf(t).value[i] != [])
  {
    if |t| >= DOMAIN_NAME_MAX {
      return false;
    }
    var isFirst, rest := true, t;
    ghost var done: seq<Text> := [];
    ReadingStart(t);
    while true
      invariant Reading(t, done, rest) && (isFirst <==> done == []) && (isFirst ==> rest == t)
      invariant !isFirst ==> rest != []
      decreases |rest|
    {
      var c := UnescapeLabel(rest);
      if c.None? {
        ReadingBad(t, done, rest);
        return false;
      }
      if rest != [] && c.value.text == [] {
        ReadingEmpty(t, done, rest);
      }
      if isFirst && c.value.text == [] && c.value.rest == [] {
        return true;
      }
      isFirst := false;
      if c.value.text == [] {
        return false;
      }
      ReadingStep(t, done, rest);
      done, rest := done + [c.value.text], c.value.rest;
      if rest == [] {
        ReadingDone(t, done);
        return true;
      }
    }
  }

  // ---------------------------------------------------------------- comparison and hash, ignoring case

  function Lower(b: Byte): Byte {
    if 65 <= b <= 90 then b + 32 else b
  }

  function Fold(l: Text): (f: Text)
    ensures |f| == |l| && forall i :: 0 <= i < |l| ==> f[i] == Lower(l[i])
  {
    if l == [] then [] else [Lower(l[0])] + Fold(l[1..])
  }

  function FoldAll(ls: seq<Text>): (f: seq<Text>)
    ensures |f| == |ls| && forall i :: 0 <= i < |ls| ==> f[i] == Fold(ls[i])
  {
    if ls == [] then [] else [Fold(ls[0])] + FoldAll(ls[1..])
  }

  /** What a name is when letter case, escapes and a trailing dot are ignored. */
  function Canon(s: Text): seq<Text>
    requires WellFormedName(s)
  {
    FoldAll(Labels(s))
  }

  /** The same byte, or the two cases of one ASCII letter. */
  predicate SameLetter(x: Byte, y: Byte) {
    x == y || (65 <= x <= 90 && y == x + 32) || (65 <= y <= 90 && x == y + 32)
  }

  predicate SameLetters(a: Text, b: Text) {
    |a| == |b| && forall i :: 0 <= i < |a| ==> SameLetter(a[i], b[i])
  }

  lemma FoldSame(a: Text, b: Text)
    ensures Fold(a) == Fold(b) <==> SameLetters(a, b)
  {
    hide Fold;
    if Fold(a) == Fold(b) {
      assert forall i :: 0 <= i < |a| ==> Fold(a)[i] == Fold(b)[i];
    }
  }

  /** Two names are compared equal exactly when they have as many labels, and those differ in letter case at most. */
  lemma CanonSame(a: Text, b: Text)
    requires WellFormedName(a) && WellFormedName(b)
    ensures Canon(a) == Canon(b) <==>
            && |Labels(a)| == |Labels(b)|
            && forall i :: 0 <= i < |Labels(a)| ==> SameLetters(Labels(a)[i], Labels(b)[i])
  {
    hide Labels, WellFormedName, SameLetters, FoldAll;
    var la, lb := Labels(a), Labels(b);
    forall i | 0 <= i < |la| && |la| == |lb|
      ensures Canon(a)[i] == Canon(b)[i] <==> SameLetters(la[i], lb[i])
    {
      FoldSame(la[i], lb[i]);
    }
  }

  /** Letters, digits, hyphen and underscore. */
  predicate IsPlain(l: Text) {
    forall i :: 0 <= i < |l| ==> 97 <= l[i] <= 122 || 65 <= l[i] <= 90 || 48 <= l[i] <= 57 || l[i] == 45 || l[i] == 95
  }

  /** A label is its own text exactly when it has no other bytes than these. */
  lemma {:induction false} EscapeUnchanged(l: Text)
    ensures Escape(l) == l <==> IsPlain(l)
  {
    hide EscapeByte;
    if l != [] {
      EscapeUnchanged(l[1..]);
      EscapeOf(l[0]);
      var e, rest := EscapeByte(l[0]), Escape(l[1..]);
      assert Escape(l) == e + rest && l == [l[0]] + l[1..];
      if Escape(l) == l {
        assert |e| == 1 && e[0] == Escape(l)[0] == l[0];
        assert rest == Escape(l)[1..] == l[1..];
      }
    }
  }

  /** A dot or backslash is written behind a backslash, any other byte that cannot stand for itself as three digits. */
  lemma EscapeOf(b: Byte)
    ensures Escape([b]) == EscapeByte(b)
    ensures IsPlain([b]) ==> EscapeByte(b) == [b]
    ensures b == 46 || b == 92 ==> EscapeByte(b) == [92, b]
    ensures !IsPlain([b]) && b != 46 && b != 92 ==>
              |EscapeByte(b)| == 4 && EscapeByte(b)[0] == 92
              && (EscapeByte(b)[1] - 48) * 100 + (EscapeByte(b)[2] - 48) * 10 + (EscapeByte(b)[3] - 48) == b
              && forall i :: 1 <= i < 4 ==> 48 <= EscapeByte(b)[i] <= 57
  {
    assert [b][0] == b && Escape([]) == [];
  }

  /** A name of two labels of such bytes. */
  lemma TwoLabels(x: Text, y: Text)
    requires 0 < |x| < LABEL_MAX && 0 < |y| < LABEL_MAX && IsPlain(x) && IsPlain(y)
    ensures NoNul(x + [DOT] + y) && WellFormedName(x + [DOT] + y) && Labels(x + [DOT] + y) == [x, y]
  {
    hide WellFormed, LabelsOf, Escape;
    AsciiWellFormed(x);
    AsciiWellFormed(y);
    EscapeUnchanged(x);
    EscapeUnchanged(y);
    assert Join([y]) == Escape(y);
    assert [x, y][1..] == [y];
    assert Join([x, y]) == x + [DOT] + y;
    LabelsOfJoin([x, y]);
    JoinNoNul([x, y]);
  }

  /** A name of one letter, and another letter in front of it. */
  lemma LetterNames(a: Byte, b: Byte)
    requires 97 <= a <= 122 && 97 <= b <= 122
    ensures var name: Text := [a]; NoNul(name) && WellFormedName(name) && Unescape(name) == Some(Cut(name, []))
    ensures var name: Text := [b, DOT, a]; NoNul(name) && Unescape(name) == Some(Cut([b], [a]))
  {
    hide Lex;
    var name: Text, longer: Text := [a], [b, DOT, a];
    AsciiWellFormed(name);
    AsciiWellFormed([b]);
    LexUnescaped(name);
    LexUnescaped(longer);
    assert longer[1] == DOT && CutAtDot(longer, Lex(longer).value);
    assert |Lex(longer).value.text| == 1;
    assert longer[..1] == [b] && longer[2..] == [a];
    assert LabelsOf([]) == Some([]) && LabelsOf(name) == Some([name] + []);
  }

  /** The first label and the rest of a well-formed name. */
  lemma FirstLabel(s: Text)
    requires WellFormedName(s)
    ensures Unescape(s).Some? && WellFormedName(Unescape(s).value.rest)
    ensures var Cut(l, rest) := Unescape(s).value;
            if l == [] then rest == [] && Labels(s) == [] else Labels(s) == [l] + Labels(rest)
  {
    if s != [] {
      var Cut(l, rest) := Unescape(s).value;
      var tail := LabelsOf(rest).value;
      assert LabelsOf(s).value == [l] + tail;
      assert forall i :: 0 <= i < |tail| ==> LabelsOf(s).value[i + 1] == tail[i];
      if l == [] {
        assert LabelsOf(s).value[0] == [];
        if rest != [] {
          LabelsOfSomething(rest);
        }
      } else {
        assert LabelsOf(s).value[0] == l;
        assert tail != [] ==> tail[0] != [];
      }
    } else {
      assert Lex(s) == Some(Cut([], []));
      assert Unescape(s) == Lex(s);
    }
  }

  lemma FirstLabelsEqual(a: Text, b: Text)
    requires WellFormedName(a) && WellFormedName(b)
    ensures Unescape(a).Some? && Unescape(b).Some?
    ensures WellFormedName(Unescape(a).value.rest) && WellFormedName(Unescape(b).value.rest)
    ensures Canon(a) == Canon(b) <==>
            && Fold(Unescape(a).value.text) == Fold(Unescape(b).value.text)
            && Canon(Unescape(a).value.rest) == Canon(Unescape(b).value.rest)
  {
    FirstLabel(a);
    FirstLabel(b);
    var Cut(la, ra) := Unescape(a).value;
    var Cut(lb, rb) := Unescape(b).value;
    if la != [] {
      assert ([la] + Labels(ra))[1..] == Labels(ra);
      assert Canon(a) == [Fold(la)] + Canon(ra);
    }
    if lb != [] {
      assert ([lb] + Labels(rb))[1..] == Labels(rb);
      assert Canon(b) == [Fold(lb)] + Canon(rb);
    }
    if la != [] && lb != [] {
      assert Canon(a)[0] == Fold(la) && Canon(a)[1..] == Canon(ra);
      assert Canon(b)[0] == Fold(lb) && Canon(b)[1..] == Canon(rb);
    }
  }

  /** avahi_domain_equal holds exactly when the labels are the same, ignoring case. */
  method DomainEqual(a: Text, b: Text) returns (r: bool)
    requires NoNul(a) && NoNul(b) && WellFormedName(a) && WellFormedName(b)
    ensures r <==> Canon(a) == Canon(b)
    ensures r <==> && |Labels(a)| == |Labels(b)|
                   && forall i :: 0 <= i < |Labels(a)| ==> SameLetters(Labels(a)[i], Labels(b)[i])
  {
    hide SameLetters;
    CanonSame(a, b);
    if a == b {
      return true;
    }
    var p, q := a, b;
    while true
      invariant NoNul(p) && NoNul(q) && WellFormedName(p) && WellFormedName(q)
      invariant Canon(a) == Canon(b) <==> Canon(p) == Canon(q)
      invariant p != [] || q != []
      decreases |p| + |q|
    {
      FirstLabelsEqual(p, q);
      var ca := UnescapeLabel(p);
      assert ca.Some?;
      var cb := UnescapeLabel(q);
      assert cb.Some?;
      if Fold(ca.value.text) != Fold(cb.value.text) {
        return false;
      }
      p, q := ca.value.rest, cb.value.rest;
      if p == [] && q == [] {
        return true;
      }
    }
  }

  /** "Printer.local" and "printer.local" are the same name. */
  method CaseIgnored() returns (r: bool)
    ensures r
  {
    hide Labels, WellFormedName;
    var upper: Text, lower: Text := [80, 114, 105, 110, 116, 101, 114], [112, 114, 105, 110, 116, 101, 114];
    var domain: Text := [108, 111, 99, 97, 108];
    TwoLabels(upper, domain);
    TwoLabels(lower, domain);
    r := DomainEqual(upper + [DOT] + domain, lower + [DOT] + domain);
  }

  const UINT_RANGE := 0x1_0000_0000

  /** char is signed: a byte of at least 128 counts as a negative number. */
  function SignedChar(b: Byte): int {
    if b < 128 then b else b - 256
  }

  function HashBytes(h: nat, t: Text): (r: nat)
    requires h < UINT_RANGE
    ensures r < UINT_RANGE
    decreases t
  {
    if t == [] then h else HashBytes((31 * h + SignedChar(t[0])) % UINT_RANGE, t[1..])
  }

  function HashLabels(h: nat, ls: seq<Text>): (r: nat)
    requires h < UINT_RANGE
    ensures r < UINT_RANGE
    decreases ls
  {
    if ls == [] then h else HashLabels(HashBytes(h, ls[0]), ls[1..])
  }

  /** Every byte counts 31 times as much as the next one, as a signed number. */
  lemma {:induction false} HashAppend(h: nat, t: Text, b: Byte)
    requires h < 0x1_0000_0000
    ensures HashBytes(h, t + [b]) == (31 * HashBytes(h, t) + (if b >= 128 then b - 256 else b)) % 0x1_0000_0000
    decreases |t|
  {
    if t == [] {
      assert (t + [b])[1..] == [];
    } else {
      assert (t + [b])[1..] == t[1..] + [b];
      HashAppend((31 * h + SignedChar(t[0])) % UINT_RANGE, t[1..], b);
    }
  }

  method HashLabel(h: nat, l: Text) returns (hash: nat)
    requires h < UINT_RANGE
    ensures hash == HashBytes(h, Fold(l)) && hash < UINT_RANGE
  {
    hash := h;
    var i := 0;
    assert Fold(l)[0..] == Fold(l);
    while i < |l|
      invariant i <= |l| && hash < UINT_RANGE
      invariant HashBytes(h, Fold(l)) == HashBytes(hash, Fold(l)[i..])
    {
      assert Fold(l)[i..][1..] == Fold(l)[i + 1..];
      hash := (31 * hash + SignedChar(Lower(l[i]))) % UINT_RANGE;
      i := i + 1;
    }
  }

  /** avahi_domain_hash depends on the folded labels alone, so equal domains have equal hashes. */
  method DomainHash(s: Text) returns (hash: nat)
    requires NoNul(s) && WellFormedName(s)
    ensures hash == HashLabels(0, Canon(s)) && hash < UINT_RANGE
  {
    hash := 0;
    var rest := s;
    while rest != []
      invariant NoNul(rest) && WellFormedName(rest) && hash < UINT_RANGE
      invariant HashLabels(0, Canon(s)) == HashLabels(hash, Canon(rest))
      decreases |rest|
    {
      FirstLabel(rest);
      var c := UnescapeLabel(rest);
      assert c.Some?;
      var l := c.value.text;
      if l != [] {
        assert ([l] + Labels(c.value.rest))[1..] == Labels(c.value.rest);
        assert Canon(rest) == [Fold(l)] + Canon(c.value.rest);
        assert Canon(rest)[1..] == Canon(c.value.rest);
      }
      hash := HashLabel(hash, l);
      rest := c.value.rest;
    }
  }
}
