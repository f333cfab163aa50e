/** Time values of avahi-common/timeval.c: seconds and microseconds, with C's truncating division. */
module Timeval {

  datatype Timeval = Timeval(sec: int, usec: int)

  const ZERO := Timeval(0, 0)

  /** The point in time, in microseconds. */
  function Micros(a: Timeval): int {
    a.sec * 1000000 + a.usec
  }

  predicate Normal(a: Timeval) {
    0 <= a.usec < 1000000
  }

  function TruncDiv(n: int, d: int): int
    requires d > 0
  {
    if n >= 0 then n / d else -((-n) / d)
  }

  function TruncMod(n: int, d: int): int
    requires d > 0
  {
    n - d * TruncDiv(n, d)
  }

  function Compare(a: Timeval, b: Timeval): int {
    if a.sec < b.sec then -1
    else if a.sec > b.sec then 1
    else if a.usec < b.usec then -1
    else if a.usec > b.usec then 1
    else 0
  }

  function Diff(a: Timeval, b: Timeval): int
    decreases Compare(a, b) < 0
  {
    if Compare(a, b) < 0 then -Diff(b, a)
    else (a.sec - b.sec) * 1000000 + a.usec - b.usec
  }

  function Add(a: Timeval, usec: int): Timeval {
    var u := usec + a.usec;
    if u < 0 then
      Timeval(a.sec - 1 + TruncDiv(u, 1000000), 1000000 + TruncMod(u, 1000000))
    else
      Timeval(a.sec + TruncDiv(u, 1000000), TruncMod(u, 1000000))
  }

  function Earlier(a: Timeval, b: Timeval): Timeval {
    if Compare(a, b) < 0 then a else b
  }

  /** Of two points in time the one that comes first. */
  lemma EarlierIsFirst(a: Timeval, b: Timeval)
    requires Normal(a) && Normal(b)
    ensures Earlier(a, b) == a || Earlier(a, b) == b
    ensures Micros(Earlier(a, b)) <= Micros(a) && Micros(Earlier(a, b)) <= Micros(b)
  {
  }

  /** On normal values the field-wise comparison orders points in time. */
  lemma CompareIsOrder(a: Timeval, b: Timeval)
    requires Normal(a) && Normal(b)
    ensures Compare(a, b) < 0 <==> Micros(a) < Micros(b)
    ensures Compare(a, b) == 0 <==> Micros(a) == Micros(b)
    ensures Compare(a, b) > 0 <==> Micros(a) > Micros(b)
  {
  }

  /** Diff is the signed distance, whichever way round its arguments are. */
  lemma DiffIsDistance(a: Timeval, b: Timeval)
    ensures Diff(a, b) == Micros(a) - Micros(b)
  {
    if Compare(a, b) < 0 {
      assert Diff(b, a) == Micros(b) - Micros(a);
    }
  }

  /** Add moves the point in time by usec, in either direction. */
  lemma AddMoves(a: Timeval, usec: int)
    ensures Micros(Add(a, usec)) == Micros(a) + usec
  {
    var u := usec + a.usec;
    assert u == 1000000 * TruncDiv(u, 1000000) + TruncMod(u, 1000000);
  }

  /** Add keeps a value normal except where it lands on a whole second before the old one. */
  lemma AddNormal(a: Timeval, usec: int)
    ensures Normal(Add(a, usec)) <==> a.usec + usec >= 0 || (a.usec + usec) % 1000000 != 0
  {
    var u := usec + a.usec;
    if u < 0 {
      assert -u == 1000000 * ((-u) / 1000000) + (-u) % 1000000;
      assert TruncMod(u, 1000000) == -((-u) % 1000000);
      if (-u) % 1000000 == 0 {
        assert u == 1000000 * -((-u) / 1000000);
      } else if u % 1000000 == 0 {
        assert -u == 1000000 * -(u / 1000000);
      }
    }
  }

  /** Going back exactly one second from a whole second leaves 1000000 microseconds behind. */
  lemma AddDenormalises()
    ensures Add(Timeval(5, 0), -1000000) == Timeval(3, 1000000)
    ensures Compare(Add(Timeval(5, 0), -1000000), Timeval(4, 0)) < 0
    ensures Micros(Add(Timeval(5, 0), -1000000)) == Micros(Timeval(4, 0))
  {
  }
}
