/** TXT string lists of avahi-common/strlst.c: singly linked, most recently added string first. */
module StringList {
  import opened Utf8
  import opened Lists

  class Node {
    var next: Node?
    const text: Text

    constructor (text: Text, next: Node?)
      ensures this.text == text && this.next == next
    {
      this.text, this.next := text, next;
    }
  }

  ghost function NodeAt(s: seq<Node>, i: int): Node? {
    if 0 <= i < |s| then s[i] else null
  }

  ghost predicate LinkAt(s: seq<Node>, i: int)
    requires 0 <= i < |s|
    reads s`next
  {
    s[i].next == NodeAt(s, i + 1)
  }

  /** l is the head of a list of the nodes s, in this order. */
  ghost predicate IsList(l: Node?, s: seq<Node>)
    reads s`next
  {
    && l == NodeAt(s, 0)
    && NoDuplicates(s)
    && (forall i :: 0 <= i < |s| ==> LinkAt(s, i))
  }

  function Texts(s: seq<Node>): (t: seq<Text>)
    ensures |t| == |s| && forall i :: 0 <= i < |s| ==> t[i] == s[i].text
  {
    if s == [] then [] else [s[0].text] + Texts(s[1..])
  }

  lemma TextsReversed(s: seq<Node>)
    ensures Texts(Reversed(s)) == Reversed(Texts(s))
  {
    forall i | 0 <= i < |s|
      ensures Texts(Reversed(s))[i] == Reversed(Texts(s))[i]
    {
      ReversedAt(s, i);
      ReversedAt(Texts(s), i);
    }
  }

  /** avahi_string_list_reverse: turns the links of a list around, in place. */
  method Reverse(list: Node?, ghost s: seq<Node>) returns (r: Node?)
    requires IsList(list, s)
    modifies s
    ensures IsList(r, Reversed(s))
  {
    r := null;
    var l := list;
    ghost var k := 0;
    assert NoDuplicates(s);
    while l != null
      invariant 0 <= k <= |s| && l == NodeAt(s, k) && r == NodeAt(s, k - 1)
      invariant forall i :: k <= i < |s| ==> LinkAt(s, i)
      invariant forall i :: 0 <= i < k ==> BackLinkAt(s, i)
      decreases |s| - k
    {
      assert LinkAt(s, k);
      forall i | 0 <= i < |s| && i != k
        ensures s[i] != s[k]
      {
        assert Apart(s, i, k);
      }
      var n := l.next;
      label Turn:
      l.next := r;
      forall i | k < i < |s|
        ensures LinkAt(s, i)
      {
        assert old@Turn(LinkAt(s, i));
      }
      forall i | 0 <= i < k
        ensures BackLinkAt(s, i)
      {
        assert old@Turn(BackLinkAt(s, i));
      }
      r := l;
      l := n;
      k := k + 1;
    }
    BackLinks(s);
  }

  ghost predicate BackLinkAt(s: seq<Node>, i: int)
    requires 0 <= i < |s|
    reads s`next
  {
    s[i].next == NodeAt(s, i - 1)
  }

  lemma BackLinks(s: seq<Node>)
    requires NoDuplicates(s)
    requires forall i :: 0 <= i < |s| ==> BackLinkAt(s, i)
    ensures IsList(NodeAt(s, |s| - 1), Reversed(s))
  {
    var t := Reversed(s);
    forall i | 0 <= i < |t|
      ensures t[i] == s[|s| - 1 - i]
    {
      ReversedAt(s, i);
    }
    forall i | 0 <= i < |t|
      ensures LinkAt(t, i)
    {
      assert BackLinkAt(s, |s| - 1 - i);
    }
    forall i, j
      ensures Apart(t, i, j)
    {
      assert Apart(s, |s| - 1 - i, |s| - 1 - j);
    }
  }

  // ---------------------------------------------------------------- wire form

  const STRING_MAX := 255

  function Clip(t: Text): Text {
    if |t| > STRING_MAX then t[..STRING_MAX] else t
  }

  /** The strings, in the order given, each after its length byte; empty strings are skipped. */
  function Body(ts: seq<Text>): Text {
    if ts == [] then []
    else if ts[0] == [] then Body(ts[1..])
    else [|Clip(ts[0])|] + Clip(ts[0]) + Body(ts[1..])
  }

  /** The TXT record data for strings in wire order; nothing at all is sent as one empty string. */
  function Encode(ts: seq<Text>): (d: Text)
    ensures d != []
  {
    if Body(ts) == [] then [0] else Body(ts)
  }

  /** What the strings are after clipping and dropping the empty ones. */
  function Clean(ts: seq<Text>): seq<Text> {
    if ts == [] then []
    else if ts[0] == [] then Clean(ts[1..])
    else [Clip(ts[0])] + Clean(ts[1..])
  }

  /** A string is written with its length in front, and cut at 255 bytes; an empty one is left out, and where nothing is
      left there is one zero byte (section 6.1 of RFC 6763). */
  lemma OneString(t: Text)
    ensures Body([t]) == if t == [] then [] else if |t| <= 255 then [|t|] + t else [255] + t[..255]
    ensures Encode([]) == [0]
  {
    assert [t][1..] == [];
  }

  datatype Parsed = Overflow | Strings(ts: seq<Text>)

  /** The non-empty strings of TXT record data, in wire order. */
  function Decode(data: Text): Parsed
    decreases |data|
  {
    if data == [] then Strings([])
    else
      var k: int := data[0];
      if k > |data| - 1 then Overflow
      else
        var rest := Decode(data[1 + k..]);
        if rest.Overflow? || k == 0 then rest else Strings([data[1..1 + k]] + rest.ts)
  }

  lemma {:induction false} DecodeBody(ts: seq<Text>)
    ensures Decode(Body(ts)) == Strings(Clean(ts))
  {
    if ts != [] {
      DecodeBody(ts[1..]);
      if ts[0] != [] {
        var c, d := Clip(ts[0]), Body(ts);
        assert d[1..1 + |c|] == c;
        assert d[1 + |c|..] == Body(ts[1..]);
      }
    }
  }

  /** Parsing inverts serialising, up to clipping and empty strings. */
  lemma DecodeEncode(ts: seq<Text>)
    ensures Decode(Encode(ts)) == Strings(Clean(ts))
  {
    DecodeBody(ts);
    if Body(ts) == [] {
      assert Decode([0]) == Decode([0][1..]);
    }
  }

  predicate Fits(t: Text) {
    1 <= |t| <= STRING_MAX
  }

  /** Exactly the lists of strings of 1 to 255 bytes come back unchanged. */
  lemma {:induction false} CleanUnchanged(ts: seq<Text>)
    ensures Clean(ts) == ts <==> forall i :: 0 <= i < |ts| ==> 1 <= |ts[i]| <= 255
  {
    if ts != [] {
      CleanUnchanged(ts[1..]);
      CleanShort(ts[1..]);
      assert (forall i :: 0 <= i < |ts| ==> Fits(ts[i])) <==>
             Fits(ts[0]) && forall i :: 0 <= i < |ts[1..]| ==> Fits(ts[1..][i]) by {
        assert forall i :: 0 < i < |ts| ==> ts[i] == ts[1..][i - 1];
      }
      assert ts == [ts[0]] + ts[1..];
      if Fits(ts[0]) {
        assert Clean(ts) == [ts[0]] + Clean(ts[1..]);
        assert Clean(ts)[1..] == Clean(ts[1..]);
      } else if ts[0] != [] {
        assert Clean(ts)[0] != ts[0];
      }
    }
  }

  lemma {:induction false} CleanShort(ts: seq<Text>)
    ensures |Clean(ts)| <= |ts|
  {
    if ts != [] {
      CleanShort(ts[1..]);
    }
  }

  // ---------------------------------------------------------------- the code

  /** The sizing pass of avahi_string_list_serialize. */
  method SerializedSize(l: Node?, ghost s: seq<Node>) returns (used: nat)
    requires IsList(l, s)
    ensures used == |Encode(Reversed(Texts(s)))|
  {
    used := 0;
    var n, k := l, 0;
    while n != null
      invariant 0 <= k <= |s| && n == NodeAt(s, k)
      invariant used == |Body(Reversed(Texts(s[..k])))|
      decreases |s| - k
    {
      assert LinkAt(s, k);
      ghost var t := Texts(s[..k]);
      assert Texts(s[..k + 1]) == t + [n.text];
      ReversedAppend(t, n.text);
      assert ([n.text] + Reversed(t))[1..] == Reversed(t);
      if n.text != [] {
        used := used + 1 + |Clip(n.text)|;
      }
      n, k := n.next, k + 1;
    }
    assert s[..k] == s;
    if used == 0 {
      used := 1;
    }
  }

  lemma {:induction false} BodyConcat(a: seq<Text>, b: seq<Text>)
    ensures Body(a + b) == Body(a) + Body(b)
  {
    if a == [] {
      assert a + b == b;
    } else {
      hide Clip;
      BodyConcat(a[1..], b);
      assert (a + b)[1..] == a[1..] + b;
      ConcatAssociative([|Clip(a[0])|] + Clip(a[0]), Body(a[1..]), Body(b));
    }
  }

  /** What is written of one string when `left` bytes of room remain. */
  function Piece(t: Text, left: nat): (d: Text)
    requires left > 1
    ensures |d| <= left
  {
    if t == [] then []
    else
      var c := Clip(t);
      var k := if |c| > left - 1 then left - 1 else |c|;
      [k] + c[..k]
  }

  /** What fits of the strings, in wire order, into `left` bytes; the last string may be cut. */
  function Limited(ts: seq<Text>, left: nat): (d: Text)
    ensures |d| <= left
    decreases ts
  {
    if left <= 1 || ts == [] then []
    else Piece(ts[0], left) + Limited(ts[1..], left - |Piece(ts[0], left)|)
  }

  /** Record data never is a single length byte without its string. */
  lemma {:induction false} BodyShort(ts: seq<Text>)
    ensures |Body(ts)| != 1
  {
    if ts != [] {
      BodyShort(ts[1..]);
    }
  }

  /** In a buffer that is large enough nothing is cut. */
  lemma {:induction false} LimitedEnough(ts: seq<Text>, left: nat)
    requires |Body(ts)| <= left
    ensures Limited(ts, left) == Body(ts)
  {
    if ts != [] {
      BodyShort(ts);
      if ts[0] == [] {
        LimitedEnough(ts[1..], left);
      } else {
        LimitedEnough(ts[1..], left - 1 - |Clip(ts[0])|);
      }
    }
  }

  /** Nothing but the last string is cut short. */
  predicate CutShort(xs: seq<Text>, ys: seq<Text>) {
    && |xs| <= |ys|
    && forall i :: 0 <= i < |xs| ==> if i < |xs| - 1 then xs[i] == ys[i] else xs[i] <= ys[i]
  }

  lemma CutShortMore(x: Text, xs: seq<Text>, ys: seq<Text>)
    requires CutShort(xs, ys)
    ensures CutShort([x] + xs, [x] + ys)
  {
  }

  /** Where there is too little room the data is still well formed: it has the first strings, the last of them cut
      short if need be, and leaves less than two bytes of the room. */
  lemma {:induction false} LimitedDecodes(ts: seq<Text>, left: nat)
    ensures Decode(Limited(ts, left)).Strings? && CutShort(Decode(Limited(ts, left)).ts, Clean(ts))
    ensures |Limited(ts, left)| + 1 >= left || Limited(ts, left) == Body(ts)
    decreases ts
  {
    hide Decode;
    if left <= 1 || ts == [] {
      DecodeNothing();
    } else {
      var p := Piece(ts[0], left);
      var rest := Limited(ts[1..], left - |p|);
      LimitedDecodes(ts[1..], left - |p|);
      if ts[0] == [] {
        assert p + rest == rest;
      } else {
        DecodePiece(p, rest);
        if |p| == 1 + |Clip(ts[0])| {
          assert p[1..] == Clip(ts[0]);
          CutShortMore(p[1..], Decode(rest).ts, Clean(ts[1..]));
        } else {
          assert rest == [] && p + rest == p;
          DecodeNothing();
          assert p[1..] <= Clip(ts[0]);
        }
      }
    }
  }

  lemma DecodeNothing()
    ensures Decode([]) == Strings([])
  {
  }

  lemma DecodePiece(p: Text, rest: Text)
    requires |p| > 1 && p[0] as int == |p| - 1 && Decode(rest).Strings?
    ensures Decode(p + rest) == Strings([p[1..]] + Decode(rest).ts)
  {
    assert (p + rest)[1..|p|] == p[1..] && (p + rest)[|p|..] == rest;
  }

  lemma LimitedStep(ts: seq<Text>, k: nat, left: nat, front: Text)
    requires k < |ts| && left > 1
    ensures var p := Piece(ts[k], left);
            front + Limited(ts[k..], left) == (front + p) + Limited(ts[k + 1..], left - |p|)
  {
    hide Piece;
    assert ts[k..][1..] == ts[k + 1..];
    var p := Piece(ts[k], left);
    ConcatAssociative(front, p, Limited(ts[k + 1..], left - |p|));
  }

  /** Skips an empty string; truncates a string at 255 bytes and makes sure it fits in. */
  method WritePiece(t: Text, left: nat) returns (d: Text)
    requires left > 1
    ensures d == Piece(t, left)
  {
    if t == [] {
      return [];
    }
    var k := |t|;
    if k > STRING_MAX {
      k := STRING_MAX;
    }
    if k > left - 1 {
      k := left - 1;
    }
    return [k] + t[..k];
  }

  /** Writes the string at index k of ts after what has been written already. */
  method WriteNext(t: Text, data: Text, left: nat, ghost ts: seq<Text>, ghost k: nat) returns (data': Text, left': nat)
    requires k < |ts| && t == ts[k] && left > 1
    ensures left' <= left && data' + Limited(ts[k + 1..], left') == data + Limited(ts[k..], left)
  {
    LimitedStep(ts, k, left, data);
    var d := WritePiece(t, left);
    data', left' := data + d, left - |d|;
  }

  /** The loop of the writing pass over a list in wire order. */
  method Write(l: Node?, size: nat, ghost t: seq<Node>, ghost ts: seq<Text>) returns (data: Text)
    requires IsList(l, t) && |ts| == |t| && forall i :: 0 <= i < |t| ==> ts[i] == t[i].text
    ensures data == Limited(ts, size)
  {
    data := [];
    var n, left, k := l, size, 0;
    assert ts[0..] == ts && [] + Limited(ts, size) == Limited(ts, size);
    while left > 1 && n != null
      invariant 0 <= k <= |t| && n == NodeAt(t, k) && left >= 0
      invariant Limited(ts, size) == data + Limited(ts[k..], left)
      decreases |t| - k
    {
      assert LinkAt(t, k);
      data, left := WriteNext(n.text, data, left, ts, k);
      n, k := n.next, k + 1;
    }
    assert data + [] == data;
  }

  lemma ReversedMembers(s: seq<Node>)
    ensures forall n :: n in Reversed(s) ==> n in s
  {
    forall n | n in Reversed(s)
      ensures n in s
    {
      var i :| 0 <= i < |s| && Reversed(s)[i] == n;
      ReversedAt(s, i);
    }
  }

  /** The writing pass of avahi_string_list_serialize: reverse the list, write it, reverse it back. */
  method Serialize(list: Node?, size: nat, ghost s: seq<Node>) returns (data: Text)
    requires IsList(list, s)
    modifies s
    ensures IsList(list, s)
    ensures var wire := Reversed(Texts(s));
            && |data| <= size
            && data == (if Limited(wire, size) == [] && size > 0 then [0] else Limited(wire, size))
            && (size >= |Encode(wire)| ==> data == Encode(wire))
  {
    ghost var t := Reversed(s);
    ReversedMembers(s);
    assert forall i :: 0 <= i < |t| ==> t[i] in Reversed(s) && t[i] in s;
    TextsReversed(s);
    ReversedTwice(s);
    var l := Reverse(list, s);
    assert IsList(l, t);
    data := Write(l, size, t, Texts(t));
    assert IsList(l, t);
    l := Reverse(l, t);
    if data == [] && size > 0 {
      data := [0];
    }
    if size >= |Encode(Texts(t))| {
      LimitedEnough(Texts(t), size);
    }
  }

  function After(front: seq<Text>, p: Parsed): Parsed {
    if p.Overflow? then p else Strings(front + p.ts)
  }

  lemma DecodeStep(data: Text, c: nat, front: seq<Text>)
    requires c < |data| && data[c] as int <= |data| - c - 1
    ensures var k: int := data[c];
            After(front, Decode(data[c..])) ==
            After(if k == 0 then front else front + [data[c + 1..c + 1 + k]], Decode(data[c + 1 + k..]))
  {
    var k: int := data[c];
    var rest := data[c..];
    assert rest[1 + k..] == data[c + 1 + k..] && rest[1..1 + k] == data[c + 1..c + 1 + k];
    var p := Decode(data[c + 1 + k..]);
    if p.Strings? && k > 0 {
      assert front + ([rest[1..1 + k]] + p.ts) == front + [rest[1..1 + k]] + p.ts;
    }
  }

  lemma DecodeTooLong(data: Text, c: nat)
    requires c < |data|
    ensures data[c] as int > |data| - c - 1 ==> Decode(data[c..]).Overflow?
  {
  }

  lemma DecodeEnd(front: seq<Text>)
    ensures After(front, Decode([])) == Strings(front)
  {
    assert front + [] == front;
  }

  lemma NothingParsed(data: Text)
    ensures data[0..] == data && After([], Decode(data)) == Decode(data)
  {
    hide Decode;
    if Decode(data).Strings? {
      assert [] + Decode(data).ts == Decode(data).ts;
    }
  }

  lemma EmptyList(s: seq<Node>)
    requires s == []
    ensures IsList(null, s) && Texts(s) == Reversed<Text>([])
  {
  }

  /** avahi_string_list_add_arbitrary */
  method Add(l: Node?, text: Text, ghost s: seq<Node>) returns (n: Node)
    requires IsList(l, s)
    ensures IsList(n, [n] + s) && fresh(n) && n.text == text
    ensures Texts([n] + s) == [text] + Texts(s)
  {
    n := new Node(text, l);
    ghost var t := [n] + s;
    assert t[1..] == s;
    forall i | 0 <= i < |t|
      ensures LinkAt(t, i)
    {
      assert i > 0 ==> LinkAt(s, i - 1);
    }
    forall i, j
      ensures Apart(t, i, j)
    {
      assert Apart(s, i - 1, j - 1);
    }
  }

  /** avahi_string_list_parse: builds the list of the non-empty strings, the last one first. */
  method Parse(data: Text) returns (ok: bool, r: Node?, ghost s: seq<Node>)
    ensures ok <==> Decode(data).Strings?
    ensures ok ==> IsList(r, s) && Texts(s) == Reversed(Decode(data).ts)
  {
    hide Decode, IsList, Reversed;
    r, s := null, [];
    var c := 0;
    ghost var front: seq<Text> := [];
    NothingParsed(data);
    EmptyList(s);
    while c < |data|
      invariant c <= |data| && IsList(r, s) && Texts(s) == Reversed(front)
      invariant Decode(data) == After(front, Decode(data[c..]))
    {
      var k: int := data[c];
      DecodeTooLong(data, c);
      if k > |data| - c - 1 {
        return false, null, [];
      }
      DecodeStep(data, c, front);
      if k > 0 {
        ReversedAppend(front, data[c + 1..c + 1 + k]);
        var n := Add(r, data[c + 1..c + 1 + k], s);
        r, s, front := n, [n] + s, front + [data[c + 1..c + 1 + k]];
      }
      c := c + 1 + k;
    }
    assert data[c..] == [];
    DecodeEnd(front);
    ok := true;
  }

  /** avahi_string_list_equal: the same strings in the same order. */
  method Equal(a: Node?, b: Node?, ghost s: seq<Node>, ghost t: seq<Node>) returns (r: bool)
    requires IsList(a, s) && IsList(b, t)
    ensures r <==> Texts(s) == Texts(t)
  {
    var p, q, k := a, b, 0;
    while true
      invariant 0 <= k <= |s| && k <= |t| && p == NodeAt(s, k) && q == NodeAt(t, k)
      invariant forall i :: 0 <= i < k ==> s[i].text == t[i].text
      decreases |s| - k
    {
      if p == null && q == null {
        return true;
      }
      if p == null || q == null {
        assert |s| != |t|;
        return false;
      }
      if |p.text| != |q.text| || p.text != q.text {
        assert Texts(s)[k] != Texts(t)[k];
        return false;
      }
      assert LinkAt(s, k) && LinkAt(t, k);
      p, q, k := p.next, q.next, k + 1;
    }
  }
}
