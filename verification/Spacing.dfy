/** What a scheduler has sent and when, and the rule that it does not send the same thing twice within a while. */
module Spacing {

  datatype Sending<K> = Sending(about: K, at: int)

  ghost predicate FarApart<K>(a: Sending<K>, b: Sending<K>, gap: nat) {
    a.about == b.about ==> a.at + gap <= b.at
  }

  /** Any two transmissions of one thing have at least the gap between them. */
  ghost predicate AllSpaced<K>(log: seq<Sending<K>>, gap: nat) {
    forall i, j | 0 <= i < j < |log| :: FarApart(log[i], log[j], gap)
  }

  ghost predicate Covers<K>(sent: map<K, int>, s: Sending<K>) {
    s.about in sent && s.at <= sent[s.about]
  }

  /** The time of the last transmission of everything in the log. */
  ghost predicate Latest<K>(log: seq<Sending<K>>, sent: map<K, int>) {
    forall i | 0 <= i < |log| :: Covers(sent, log[i])
  }

  /** Several things sent at one time. */
  ghost function Together<K>(ks: seq<K>, at: int): (log: seq<Sending<K>>)
    ensures |log| == |ks|
  {
    seq(|ks|, i requires 0 <= i < |ks| => Sending(ks[i], at))
  }

  lemma TogetherMore<K>(ks: seq<K>, k: K, at: int)
    ensures Together(ks + [k], at) == Together(ks, at) + [Sending(k, at)]
  {
  }

  /** One more transmission, far enough after the last one. */
  lemma Sent<K>(log: seq<Sending<K>>, sent: map<K, int>, k: K, now: int, gap: nat)
    requires AllSpaced(log, gap) && Latest(log, sent) && (k in sent ==> sent[k] + gap <= now)
    ensures AllSpaced(log + [Sending(k, now)], gap) && Latest(log + [Sending(k, now)], sent[k := now])
  {
    var more := log + [Sending(k, now)];
    forall i, j | 0 <= i < j < |more|
      ensures FarApart(more[i], more[j], gap)
    {
      assert Covers(sent, log[i]);
      assert j < |log| ==> FarApart(log[i], log[j], gap);
    }
    forall i | 0 <= i < |more|
      ensures Covers(sent[k := now], more[i])
    {
      assert i < |log| ==> Covers(sent, log[i]);
    }
  }

  /** Whatever was sent within the gap is still held by somebody. */
  ghost predicate Guarded<J, K>(sent: map<K, int>, held: map<J, Sending<K>>, clock: int, gap: nat) {
    forall k | k in sent :: Guards(sent[k], held, k, clock, gap)
  }

  ghost predicate Guards<J, K>(at: int, held: map<J, Sending<K>>, k: K, clock: int, gap: nat) {
    at <= clock && (clock >= at + gap || exists j | j in held :: held[j].about == k && held[j].at >= at)
  }

  lemma GuardedLater<J, K>(sent: map<K, int>, held: map<J, Sending<K>>, clock: int, later: int, gap: nat)
    requires Guarded(sent, held, clock, gap) && clock <= later
    ensures Guarded(sent, held, later, gap)
  {
    forall k | k in sent
      ensures Guards(sent[k], held, k, later, gap)
    {
      assert Guards(sent[k], held, k, clock, gap);
    }
  }

  /** Somebody holds a thing from now on, or again. */
  lemma GuardedMore<J, K>(sent: map<K, int>, held: map<J, Sending<K>>, j: J, k: K, now: int, gap: nat)
    requires Guarded(sent, held, now, gap) && (j in held ==> held[j].about == k)
    ensures Guarded(sent, held[j := Sending(k, now)], now, gap)
  {
    var more := held[j := Sending(k, now)];
    forall c | c in sent
      ensures Guards(sent[c], more, c, now, gap)
    {
      assert Guards(sent[c], held, c, now, gap);
      if now < sent[c] + gap {
        var h :| h in held && held[h].about == c && held[h].at >= sent[c];
        assert h in more && more[h].about == c && more[h].at >= sent[c];
      }
    }
  }

  /** Somebody who has held a thing for long enough lets go of it. */
  lemma GuardedLess<J, K>(sent: map<K, int>, held: map<J, Sending<K>>, j: J, now: int, gap: nat)
    requires Guarded(sent, held, now, gap) && j in held && held[j].at + gap <= now
    ensures Guarded(sent, held - {j}, now, gap)
  {
    var less := held - {j};
    forall c | c in sent
      ensures Guards(sent[c], less, c, now, gap)
    {
      assert Guards(sent[c], held, c, now, gap);
      if now < sent[c] + gap {
        var h :| h in held && held[h].about == c && held[h].at >= sent[c];
        assert h in less && less[h].about == c && less[h].at >= sent[c];
      }
    }
  }

  /** What somebody holds since now may have been sent now. */
  lemma GuardedSent<J, K>(sent: map<K, int>, held: map<J, Sending<K>>, j: J, k: K, now: int, gap: nat)
    requires Guarded(sent, held, now, gap) && j in held && held[j] == Sending(k, now)
    ensures Guarded(sent[k := now], held, now, gap)
  {
    var more := sent[k := now];
    forall c | c in more
      ensures Guards(more[c], held, c, now, gap)
    {
      assert c != k ==> Guards(sent[c], held, c, now, gap);
    }
  }

  /** What nobody holds was not sent within the gap. */
  lemma NotGuarded<J, K>(sent: map<K, int>, held: map<J, Sending<K>>, k: K, now: int, gap: nat)
    requires Guarded(sent, held, now, gap) && forall j | j in held :: held[j].about != k
    ensures k in sent ==> sent[k] + gap <= now
  {
    assert k in sent ==> Guards(sent[k], held, k, now, gap);
  }

  /** Nothing has been sent yet. */
  lemma NothingSent<J, K>(held: map<J, Sending<K>>, clock: int, gap: nat)
    ensures AllSpaced<K>([], gap) && Latest<K>([], map[]) && Guarded(map[], held, clock, gap)
  {
  }

  /** What is sent together is different, and was not sent for a while before. */
  lemma TogetherSpaced<K>(log: seq<Sending<K>>, ks: seq<K>, at: int, gap: nat)
    requires gap > 0 && AllSpaced(log + Together(ks, at), gap)
    ensures forall i, j :: 0 <= i < j < |ks| ==> ks[i] != ks[j]
    ensures forall i, s :: 0 <= i < |ks| && s in log && s.about == ks[i] ==> s.at + gap <= at
  {
    var all := log + Together(ks, at);
    forall i, j | 0 <= i < j < |ks|
      ensures ks[i] != ks[j]
    {
      assert FarApart(all[|log| + i], all[|log| + j], gap);
    }
    forall i, s | 0 <= i < |ks| && s in log && s.about == ks[i]
      ensures s.at + gap <= at
    {
      var n :| 0 <= n < |log| && log[n] == s;
      assert FarApart(all[n], all[|log| + i], gap);
    }
  }
}
