/** Linked lists of objects, told as sequences: what removing and prepending an item does. */
module Lists {

  ghost predicate Apart<T>(s: seq<T>, i: int, j: int) {
    0 <= i < |s| && 0 <= j < |s| && i != j ==> s[i] != s[j]
  }

  /** An item is in a list once. */
  ghost predicate NoDuplicates<T>(s: seq<T>) {
    forall i, j :: Apart(s, i, j)
  }

  lemma ConcatAssociative<T>(a: seq<T>, b: seq<T>, c: seq<T>)
    ensures a + (b + c) == (a + b) + c
  {
  }

  lemma OtherPlaces<T>(s: seq<T>, i: nat)
    requires NoDuplicates(s) && i < |s|
    ensures forall n :: 0 <= n < |s| && n != i ==> s[n] != s[i]
  {
    forall n | 0 <= n < |s| && n != i
      ensures s[n] != s[i]
    {
      assert Apart(s, n, i);
    }
  }

  function Without<T(==)>(s: seq<T>, x: T): (r: seq<T>)
    ensures forall i :: 0 <= i < |r| ==> r[i] in s && r[i] != x
    ensures forall i :: 0 <= i < |s| && s[i] != x ==> s[i] in r
  {
    if s == [] then []
    else if s[0] == x then Without(s[1..], x)
    else [s[0]] + Without(s[1..], x)
  }

  lemma {:induction false} WithoutAbsent<T>(s: seq<T>, x: T)
    requires x !in s
    ensures Without(s, x) == s
  {
    if s != [] {
      WithoutAbsent(s[1..], x);
      assert [s[0]] + s[1..] == s;
    }
  }

  lemma NoDuplicatesTail<T>(s: seq<T>)
    requires s != [] && NoDuplicates(s)
    ensures NoDuplicates(s[1..]) && s[0] !in s[1..]
  {
    forall i, j
      ensures Apart(s[1..], i, j)
    {
      assert Apart(s, i + 1, j + 1);
    }
    forall j | 1 <= j < |s|
      ensures s[j] != s[0]
    {
      assert Apart(s, 0, j);
    }
  }

  lemma NoDuplicatesPrepend<T>(x: T, s: seq<T>)
    requires NoDuplicates(s) && x !in s
    ensures NoDuplicates([x] + s)
  {
    forall i, j
      ensures Apart([x] + s, i, j)
    {
      assert Apart(s, i - 1, j - 1);
    }
  }

  lemma {:induction false} NoDuplicatesWithout<T>(s: seq<T>, x: T)
    requires NoDuplicates(s)
    ensures NoDuplicates(Without(s, x)) && |Without(s, x)| == |s| - if x in s then 1 else 0
  {
    if s != [] {
      NoDuplicatesTail(s);
      NoDuplicatesWithout(s[1..], x);
      if s[0] == x {
        WithoutAbsent(s[1..], x);
      } else {
        NoDuplicatesPrepend(s[0], Without(s[1..], x));
      }
    }
  }

  lemma WithoutHolds<T>(s: seq<T>, x: T)
    ensures forall y :: y in Without(s, x) <==> y in s && y != x
  {
  }

  lemma FirstWithout<T>(s: seq<T>)
    requires s != [] && NoDuplicates(s)
    ensures Without(s, s[0]) == s[1..]
  {
    NoDuplicatesTail(s);
    WithoutAbsent(s[1..], s[0]);
  }

  /** The items of a list that are in a set, in the order of the list. */
  ghost function Those<T>(s: seq<T>, xs: set<T>): seq<T> {
    if s == [] then [] else Those(s[..|s| - 1], xs) + if s[|s| - 1] in xs then [s[|s| - 1]] else []
  }

  /** The items of a list that are not in a set, in the order of the list. */
  ghost function Except<T>(s: seq<T>, xs: set<T>): seq<T> {
    if s == [] then [] else if s[0] in xs then Except(s[1..], xs) else [s[0]] + Except(s[1..], xs)
  }

  function Reversed<T>(s: seq<T>): (r: seq<T>)
    ensures |r| == |s|
  {
    if s == [] then [] else Reversed(s[1..]) + [s[0]]
  }

  lemma {:induction false} ReversedAt<T>(s: seq<T>, i: nat)
    requires i < |s|
    ensures Reversed(s)[i] == s[|s| - 1 - i]
  {
    if i < |s| - 1 {
      ReversedAt(s[1..], i);
    }
  }

  lemma {:induction false} ReversedTwice<T>(s: seq<T>)
    ensures Reversed(Reversed(s)) == s
  {
    forall i | 0 <= i < |s|
      ensures Reversed(Reversed(s))[i] == s[i]
    {
      ReversedAt(Reversed(s), i);
      ReversedAt(s, |s| - 1 - i);
    }
  }

  lemma {:induction false} ReversedAppend<T>(s: seq<T>, x: T)
    ensures Reversed(s + [x]) == [x] + Reversed(s)
  {
    if s == [] {
      assert s + [x] == [x];
    } else {
      ReversedAppend(s[1..], x);
      assert (s + [x])[1..] == s[1..] + [x];
    }
  }

  lemma {:induction false} ThoseHolds<T>(s: seq<T>, xs: set<T>)
    ensures forall x :: x in Those(s, xs) <==> x in s && x in xs
  {
    if s != [] {
      ThoseHolds(s[..|s| - 1], xs);
    }
  }

  lemma {:induction false} ExceptHolds<T>(s: seq<T>, xs: set<T>)
    ensures forall x :: x in Except(s, xs) <==> x in s && x !in xs
  {
    if s != [] {
      ExceptHolds(s[1..], xs);
    }
  }

  ghost function Items<T>(s: seq<T>): set<T> {
    set x | x in s
  }

  lemma {:induction false} ExceptNothing<T>(s: seq<T>)
    ensures Except(s, {}) == s
  {
    if s != [] {
      ExceptNothing(s[1..]);
      assert [s[0]] + s[1..] == s;
    }
  }

  /** One more item is taken out. */
  lemma {:induction false} ExceptMore<T>(s: seq<T>, xs: set<T>, x: T)
    ensures Without(Except(s, xs), x) == Except(s, xs + {x})
  {
    if s != [] {
      ExceptMore(s[1..], xs, x);
      if s[0] !in xs {
        assert (Except(s, xs))[1..] == Except(s[1..], xs);
      }
    }
  }

  lemma ThoseMore<T>(s: seq<T>, xs: set<T>, i: nat)
    requires i < |s|
    ensures Those(s[..i + 1], xs) == Those(s[..i], xs) + if s[i] in xs then [s[i]] else []
  {
    assert s[..i + 1][..i] == s[..i];
  }

  /** The selection from a beginning of a list is a beginning of the whole selection. */
  lemma {:induction false} ThoseBefore<T>(s: seq<T>, xs: set<T>, i: nat)
    requires i <= |s|
    ensures Those(s[..i], xs) <= Those(s, xs)
    decreases |s| - i
  {
    if i < |s| {
      ThoseMore(s, xs, i);
      ThoseBefore(s, xs, i + 1);
    } else {
      assert s[..i] == s;
    }
  }

  lemma {:induction false} ThoseWithout<T>(s: seq<T>, xs: set<T>, x: T)
    requires x !in s
    ensures Those(s, xs + {x}) == Those(s, xs)
  {
    if s != [] {
      ThoseWithout(s[..|s| - 1], xs, x);
    }
  }

  lemma {:induction false} ThoseNone<T>(s: seq<T>)
    ensures Those(s, {}) == []
  {
    if s != [] {
      ThoseNone(s[..|s| - 1]);
    }
  }

  /** One item of a list, and the list without it. */
  lemma {:induction false} ThoseOne<T>(s: seq<T>, x: T)
    requires NoDuplicates(s) && x in s
    ensures Those(s, {x}) == [x] && Except(s, {x}) == Without(s, x)
  {
    NoDuplicatesFront(s);
    var front := s[..|s| - 1];
    if s[|s| - 1] == x {
      ThoseNone(front);
      ThoseWithout(front, {}, x);
      assert {} + {x} == {x};
    } else {
      ThoseOne(front, x);
    }
    ExceptNothing(s);
    ExceptMore(s, {}, x);
    assert {} + {x} == {x};
  }

  lemma NoDuplicatesFront<T>(s: seq<T>)
    requires s != [] && NoDuplicates(s)
    ensures NoDuplicates(s[..|s| - 1]) && s[|s| - 1] !in s[..|s| - 1]
  {
    var front := s[..|s| - 1];
    forall i, j
      ensures Apart(front, i, j)
    {
      assert Apart(s, i, j);
    }
    forall j | 0 <= j < |s| - 1
      ensures s[j] != s[|s| - 1]
    {
      assert Apart(s, j, |s| - 1);
    }
  }

  lemma NoDuplicatesAppend<T>(s: seq<T>, x: T)
    requires NoDuplicates(s) && x !in s
    ensures NoDuplicates(s + [x])
  {
    var more := s + [x];
    forall i, j
      ensures Apart(more, i, j)
    {
      assert Apart(s, i, j);
    }
  }

  /** A beginning of a selection is in the order of the list, with no item twice. */
  lemma {:induction false} SelectedInOrder<T>(s: seq<T>, xs: set<T>, begin: seq<T>)
    requires NoDuplicates(s) && begin <= Those(s, xs)
    ensures NoDuplicates(begin) && begin == Those(s, Items(begin))
  {
    if s == [] {
      assert begin == [];
    } else {
      var front, last := s[..|s| - 1], s[|s| - 1];
      NoDuplicatesFront(s);
      var chosen := Those(front, xs);
      ThoseHolds(front, xs);
      if |begin| <= |chosen| {
        assert begin <= chosen;
        SelectedInOrder(front, xs, begin);
        assert last !in chosen && forall x :: x in begin ==> x in chosen;
      } else {
        assert begin == chosen + [last] && begin[..|chosen|] == chosen;
        SelectedInOrder(front, xs, chosen);
        NoDuplicatesAppend(chosen, last);
        assert Items(begin) == Items(chosen) + {last};
        ThoseWithout(front, Items(chosen), last);
      }
    }
  }
}
