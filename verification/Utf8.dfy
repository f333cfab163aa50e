/** UTF-8 validation of avahi-common/utf8.c, against the syntax of section 4 of RFC 3629. */
module Utf8 {

  type Byte = b: int | 0 <= b < 256

  /** A C string: its bytes, without the terminating NUL. */
  type Text = seq<Byte>

  predicate NoNul(s: Text) {
    0 !in s
  }

  /** What C reads at index p: the terminator is a NUL byte. */
  function CharAt(s: Text, p: nat): Byte {
    if p < |s| then s[p] else 0
  }

  /** A C string ends at its first NUL. */
  function CString(t: Text): (s: Text)
    ensures NoNul(s)
    ensures NoNul(t) ==> s == t
  {
    if t == [] || t[0] == 0 then [] else [t[0]] + CString(t[1..])
  }

  lemma {:induction false} CStringEnds(t: Text)
    requires 0 in t
    ensures |CString(t)| < |t| && t[|CString(t)|] == 0 && t[..|CString(t)|] == CString(t)
  {
    if t[0] != 0 {
      CStringEnds(t[1..]);
      assert t[..|CString(t)|] == [t[0]] + t[1..][..|CString(t[1..])|];
    }
  }

  lemma {:induction false} CStringUpTo(t: Text, n: nat)
    requires n < |t| && t[n] == 0 && NoNul(t[..n])
    ensures CString(t) == t[..n]
  {
    if n > 0 {
      assert t[..n][0] == t[0] && t[..n] == [t[0]] + t[1..][..n - 1];
      CStringUpTo(t[1..], n - 1);
    }
  }

  // ---------------------------------------------------------------- the syntax of RFC 3629

  predicate Tail(b: Byte) {
    0x80 <= b <= 0xBF
  }

  predicate Two(s: Text) {
    |s| >= 2 && 0xC2 <= s[0] <= 0xDF && Tail(s[1])
  }

  predicate Three(s: Text) {
    && |s| >= 3 && Tail(s[1]) && Tail(s[2])
    && (|| (s[0] == 0xE0 && 0xA0 <= s[1])
        || 0xE1 <= s[0] <= 0xEC
        || (s[0] == 0xED && s[1] <= 0x9F)
        || 0xEE <= s[0] <= 0xEF)
  }

  predicate Four(s: Text) {
    && |s| >= 4 && Tail(s[1]) && Tail(s[2]) && Tail(s[3])
    && (|| (s[0] == 0xF0 && 0x90 <= s[1])
        || 0xF1 <= s[0] <= 0xF3
        || (s[0] == 0xF4 && s[1] <= 0x8F))
  }

  function Scalar(s: Text): int
    requires Three(s) || Four(s)
  {
    var b0: int, b1: int, b2: int := s[0], s[1], s[2];
    if Three(s) then
      b0 % 16 * 4096 + b1 % 64 * 64 + b2 % 64
    else
      var b3: int := s[3];
      b0 % 8 * 262144 + b1 % 64 * 4096 + b2 % 64 * 64 + b3 % 64
  }

  predicate Noncharacter(c: int) {
    0xFDD0 <= c <= 0xFDEF || c % 65536 >= 0xFFFE
  }

  /** The length of the character at the start of s, 0 if there is no acceptable one. */
  function CharLength(s: Text): (n: nat)
    ensures n <= |s|
  {
    if |s| >= 1 && s[0] < 0x80 then 1
    else if Two(s) then 2
    else if Three(s) && !Noncharacter(Scalar(s)) then 3
    else if Four(s) && !Noncharacter(Scalar(s)) then 4
    else 0
  }

  /** s is a concatenation of well-formed sequences that encode no noncharacter. */
  predicate WellFormed(s: Text) {
    s == [] || (CharLength(s) > 0 && WellFormed(s[CharLength(s)..]))
  }

  // ---------------------------------------------------------------- the validator

  /** UNICODE_VALID */
  predicate UnicodeValid(c: int) {
    && 0 <= c < 0x110000
    && c / 2048 != 27
    && (c < 0xFDD0 || c > 0xFDEF)
    && (c % 65536) / 2 != 32767
  }

  lemma LengthOfTwo(s: Text)
    requires s != [] && s[0] / 32 == 6
    ensures CharLength(s) == if (s[0] % 32) / 2 != 0 && CharAt(s, 1) / 64 == 2 then 2 else 0
  {
  }

  lemma LengthOfThree(s: Text)
    requires s != [] && s[0] / 16 == 14
    ensures var val := (s[0] % 16 * 64 + CharAt(s, 1) % 64) * 64 + CharAt(s, 2) % 64;
            CharLength(s) == if CharAt(s, 1) / 64 == 2 && CharAt(s, 2) / 64 == 2 && val >= 2048
              && UnicodeValid(val) then 3 else 0
  {
  }

  lemma LengthOfFour(s: Text)
    requires s != [] && s[0] / 8 == 30
    ensures var val := ((s[0] % 8 * 64 + CharAt(s, 1) % 64) * 64 + CharAt(s, 2) % 64) * 64 + CharAt(s, 3) % 64;
            CharLength(s) == if && CharAt(s, 1) / 64 == 2 && CharAt(s, 2) / 64 == 2 && CharAt(s, 3) / 64 == 2
                                && val >= 65536 && UnicodeValid(val) then 4 else 0
  {
  }

  /** What the first byte of a character of several bytes says about its length. */
  lemma LengthByFirst(s: Text)
    requires s != [] && s[0] >= 128
    ensures s[0] / 32 != 6 && s[0] / 16 != 14 && s[0] / 8 != 30 ==> CharLength(s) == 0
  {
  }

  /** The scan of one character that starts with a byte of at least 128; q is its last byte. */
  method ScanMultibyte(str: Text, p: nat) returns (ok: bool, q: nat)
    requires p < |str| && str[p] >= 128
    ensures ok <==> CharLength(str[p..]) > 0
    ensures ok ==> q + 1 == p + CharLength(str[p..])
  {
    hide CharLength, UnicodeValid;
    ghost var s := str[p..];
    assert forall i: nat :: CharAt(s, i) == CharAt(str, p + i);
    LengthByFirst(s);
    if s[0] / 32 == 6 {
      LengthOfTwo(s);
    } else if s[0] / 16 == 14 {
      LengthOfThree(s);
    } else if s[0] / 8 == 30 {
      LengthOfFour(s);
    }
    q := p;
    var b := str[q];
    if b / 32 == 6 {
      if (b % 32) / 2 == 0 {
        return false, q;
      }
      q := q + 1;
      return CharAt(str, q) / 64 == 2, q;
    }
    var min, val := 0, 0;
    if b / 16 == 14 {
      min, val := 2048, b % 16;
    } else if b / 8 == 30 {
      min, val := 65536, b % 8;
      q := q + 1;
      if CharAt(str, q) / 64 != 2 {
        return false, q;
      }
      val := val * 64 + CharAt(str, q) % 64;
    } else {
      return false, q;
    }
    q := q + 1;
    if CharAt(str, q) / 64 != 2 {
      return false, q;
    }
    val := val * 64 + CharAt(str, q) % 64;
    q := q + 1;
    if CharAt(str, q) / 64 != 2 {
      return false, q;
    }
    val := val * 64 + CharAt(str, q) % 64;
    ok := val >= min && UnicodeValid(val);
  }

  /** avahi_utf8_valid accepts exactly the well-formed strings. */
  method Utf8Valid(str: Text) returns (ok: bool)
    requires NoNul(str)
    ensures ok <==> WellFormed(str)
  {
    var p := 0;
    while CharAt(str, p) != 0
      invariant p <= |str| && (WellFormed(str) <==> WellFormed(str[p..]))
      decreases |str| - p
    {
      if CharAt(str, p) >= 128 {
        var good, q := ScanMultibyte(str, p);
        if !good {
          return false;
        }
        assert str[p..][CharLength(str[p..])..] == str[q + 1..];
        p := q;
      } else {
        assert str[p..][1..] == str[p + 1..];
      }
      p := p + 1;
    }
    return true;
  }

  // ---------------------------------------------------------------- concatenation and prefixes

  /** Where what is accepted begins and ends: at overlong forms, surrogates, noncharacters, and beyond U+10FFFF. */
  lemma OverlongRefused()
    ensures CharLength([0xC1, 0xBF]) == 0 && CharLength([0xC2, 0x80]) == 2
    ensures CharLength([0xE0, 0x9F, 0xBF]) == 0 && CharLength([0xE0, 0xA0, 0x80]) == 3
    ensures CharLength([0xF0, 0x8F, 0xBF, 0xBF]) == 0 && CharLength([0xF0, 0x90, 0x80, 0x80]) == 4
  {
  }

  lemma SurrogatesRefused()
    ensures CharLength([0xED, 0x9F, 0xBF]) == 3 && CharLength([0xED, 0xA0, 0x80]) == 0
    ensures CharLength([0xED, 0xBF, 0xBF]) == 0 && CharLength([0xEE, 0x80, 0x80]) == 3
  {
  }

  /** Of the characters of three bytes that begin with 0xEF all but the noncharacters are accepted. */
  lemma NoncharactersRefused(b: Byte, c: Byte)
    requires 0x80 <= b <= 0xBF && 0x80 <= c <= 0xBF
    ensures var v := 0xF000 + (b - 0x80) * 64 + (c - 0x80);
            CharLength([0xEF, b, c]) == if 0xFDD0 <= v <= 0xFDEF || 0xFFFE <= v then 0 else 3
  {
    var s: Text := [0xEF, b, c];
    assert Three(s) && Scalar(s) == 0xF000 + (b - 0x80) * 64 + (c - 0x80);
  }

  /** Of the characters of four bytes from U+40000 on the last two of each plane are not, and nothing is behind the last
      plane. */
  lemma PlaneEndsRefused(a: Byte, b: Byte, c: Byte, d: Byte)
    requires 0x80 <= b <= 0xBF && 0x80 <= c <= 0xBF && 0x80 <= d <= 0xBF && a > 0xF0
    ensures var v := (a - 0xF0) * 262144 + (b - 0x80) * 4096 + (c - 0x80) * 64 + (d - 0x80);
            CharLength([a, b, c, d]) == if v > 0x10FFFF || v % 65536 >= 0xFFFE then 0 else 4
  {
    var s: Text := [a, b, c, d];
    if a <= 0xF3 || (a == 0xF4 && b <= 0x8F) {
      assert Four(s);
      assert Scalar(s) == (a - 0xF0) * 262144 + (b - 0x80) * 4096 + (c - 0x80) * 64 + (d - 0x80);
    }
  }

  lemma CharLengthOfPrefix(a: Text, b: Text)
    requires CharLength(a) > 0
    ensures CharLength(a + b) == CharLength(a)
  {
  }

  /** A well-formed prefix can be split off. */
  lemma {:induction false} WellFormedConcat(a: Text, b: Text)
    requires WellFormed(a)
    ensures WellFormed(a + b) <==> WellFormed(b)
    decreases |a|
  {
    if a == [] {
      assert a + b == b;
    } else {
      var n := CharLength(a);
      CharLengthOfPrefix(a, b);
      WellFormedConcat(a[n..], b);
      assert (a + b)[n..] == a[n..] + b;
    }
  }

  lemma {:induction false} AsciiWellFormed(s: Text)
    requires forall i :: 0 <= i < |s| ==> s[i] < 128
    ensures WellFormed(s)
  {
    if s != [] {
      AsciiWellFormed(s[1..]);
    }
  }

  /** ASCII at the end does not complete a character. */
  lemma {:induction false} WellFormedBeforeAscii(a: Text, t: Text)
    requires WellFormed(a + t) && forall i :: 0 <= i < |t| ==> t[i] < 128
    ensures WellFormed(a)
    decreases |a|
  {
    if a != [] {
      var n := CharLength(a + t);
      CharEnds(a, t);
      assert (a + t)[n..] == a[n..] + t;
      WellFormedBeforeAscii(a[n..], t);
    }
  }

  lemma CharEnds(a: Text, t: Text)
    requires a != [] && CharLength(a + t) > 0 && forall i :: 0 <= i < |t| ==> t[i] < 128
    ensures CharLength(a) == CharLength(a + t)
  {
    var s := a + t;
    assert forall i :: 0 <= i < |a| ==> s[i] == a[i];
    assert forall i :: |a| <= i < |s| ==> s[i] == t[i - |a|] && !Tail(s[i]);
  }

  // ---------------------------------------------------------------- the longest well-formed prefix

  /** The length of the longest prefix that is well-formed. */
  function WholeLength(s: Text): (n: nat)
    ensures n <= |s|
  {
    if CharLength(s) == 0 then 0 else CharLength(s) + WholeLength(s[CharLength(s)..])
  }

  function Whole(s: Text): Text {
    s[..WholeLength(s)]
  }

  lemma {:induction false} WholeWellFormed(s: Text)
    ensures WellFormed(Whole(s))
  {
    var n := CharLength(s);
    if n > 0 {
      WholeWellFormed(s[n..]);
      CharLengthCut(s, WholeLength(s));
      assert Whole(s)[n..] == Whole(s[n..]);
    }
  }

  lemma CharLengthCut(s: Text, n: nat)
    requires 0 < CharLength(s) <= n <= |s|
    ensures CharLength(s[..n]) == CharLength(s)
  {
  }

  lemma {:induction false} WholeLongest(s: Text, n: nat)
    requires n <= |s| && WellFormed(s[..n])
    ensures n <= WholeLength(s)
  {
    if n > 0 {
      var l := CharLength(s[..n]);
      CharLengthOfPrefix(s[..n], s[n..]);
      assert s[..n] + s[n..] == s;
      assert s[..n][l..] == s[l..][..n - l];
      WholeLongest(s[l..], n - l);
    }
  }

  /** All that follows the longest well-formed prefix is the beginning of a character. */
  predicate CutInside(s: Text) {
    forall i :: WholeLength(s) <= i < |s| ==> s[i] >= 128
  }

  /** A well-formed text that is cut off loses at most three bytes more. */
  lemma {:induction false} CutWellFormed(s: Text, n: nat)
    requires WellFormed(s) && n <= |s|
    ensures CutInside(s[..n]) && n - WholeLength(s[..n]) < 4
  {
    hide CharLength;
    if n > 0 {
      var l := CharLength(s);
      if l <= n {
        CharLengthCut(s, n);
        CutWellFormed(s[l..], n - l);
        assert s[..n][l..] == s[l..][..n - l];
        forall i | WholeLength(s[..n]) <= i < n
          ensures s[..n][i] >= 128
        {
          assert s[..n][i] == s[l..][..n - l][i - l];
        }
      } else {
        NoCharYet(s, n);
      }
    }
  }

  lemma NoCharYet(s: Text, n: nat)
    requires 0 < n < CharLength(s)
    ensures CharLength(s[..n]) == 0 && n < 4 && forall i :: 0 <= i < n ==> s[i] >= 128
  {
  }

  /** Dropping the end of a string, one byte after the other, until it is well-formed. The assertion in the
      loop holds exactly when the string was cut inside a character. */
  method DropIncompleteUtf8(c: array<Byte>) returns (ok: bool)
    requires 0 in c[..]
    modifies c
    ensures ok <==> CutInside(CString(old(c[..])))
    ensures ok ==> CString(c[..]) == Whole(CString(old(c[..])))
  {
    hide WellFormed, WholeLength, CString;
    ghost var s := CString(c[..]);
    CStringEnds(c[..]);
    var e := |CString(c[..])|;
    while e > 0
      invariant 0 <= e <= |s| < c.Length && c[..e] == s[..e] && c[e] == 0 && WholeLength(s) <= e
      invariant forall i :: e <= i < |s| ==> s[i] >= 128
    {
      var valid := Utf8Valid(c[..e]);
      if valid {
        WholeLongest(s, e);
        break;
      }
      NotWhole(s, e);
      assert c[e - 1] == c[..e][e - 1] && s[e - 1] == s[..e][e - 1];
      if c[e - 1] < 128 {
        return false;
      }
      e := e - 1;
      assert s[..e] == s[..e + 1][..e] && c[..e] == c[..e + 1][..e];
      c[e] := 0;
    }
    CStringUpTo(c[..], e);
    ok := true;
  }

  lemma NotWhole(s: Text, e: nat)
    requires WholeLength(s) <= e <= |s| && !WellFormed(s[..e])
    ensures WholeLength(s) < e
  {
    WholeWellFormed(s);
  }
}
