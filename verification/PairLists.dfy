/** Lists of (bank, PCR) pairs: filtering, removal and the order of a dump. */
module PairLists {
  import opened Common
  import opened PcrSelection
  import opened BankBitmap

  /** The pairs that are in `s`, in order. */
  function Keep(ps: seq<Pair>, s: set<Pair>): (r: seq<Pair>)
    ensures |r| <= |ps|
  {
    if ps == [] then [] else (if ps[0] in s then [ps[0]] else []) + Keep(ps[1..], s)
  }

  /** The pairs other than `p`, in order. */
  function Without(ps: seq<Pair>, p: Pair): seq<Pair> {
    if ps == [] then [] else (if ps[0] != p then [ps[0]] else []) + Without(ps[1..], p)
  }

  predicate NoRepeats(ps: seq<Pair>) {
    forall j, k :: 0 <= j < k < |ps| ==> ps[j] != ps[k]
  }

  /** Bank order, then ascending PCR. */
  predicate Before(p: Pair, q: Pair) {
    BankBit(p.alg) < BankBit(q.alg) || (p.alg == q.alg && p.pcr < q.pcr)
  }

  predicate InOrder(ps: seq<Pair>) {
    forall j, k :: 0 <= j < k < |ps| ==> Before(ps[j], ps[k])
  }

  lemma InOrderNoRepeats(ps: seq<Pair>)
    requires InOrder(ps)
    ensures NoRepeats(ps)
  {
  }

  lemma InOrderConcat(ps: seq<Pair>, qs: seq<Pair>)
    requires InOrder(ps) && InOrder(qs)
    requires forall p, q :: p in ps && q in qs ==> Before(p, q)
    ensures InOrder(ps + qs)
  {
    hide Before;
    var r := ps + qs;
    forall j, k | 0 <= j < k < |r| ensures Before(r[j], r[k]) {
      if j < |ps| <= k {
        assert r[j] == ps[j] && r[k] == qs[k - |ps|];
      }
    }
  }

  lemma {:induction false} KeepContains(ps: seq<Pair>, s: set<Pair>, p: Pair)
    ensures p in Keep(ps, s) <==> p in ps && p in s
  {
    if ps != [] {
      KeepContains(ps[1..], s, p);
    }
  }

  lemma ShortInOrder(ps: seq<Pair>)
    requires |ps| <= 1
    ensures InOrder(ps)
  {
  }

  lemma {:induction false} KeepConcat(ps: seq<Pair>, qs: seq<Pair>, s: set<Pair>)
    ensures Keep(ps + qs, s) == Keep(ps, s) + Keep(qs, s)
  {
    if ps == [] {
      assert ps + qs == qs && Keep(ps, s) + Keep(qs, s) == Keep(qs, s);
    } else {
      var head := if ps[0] in s then [ps[0]] else [];
      KeepConcat(ps[1..], qs, s);
      assert (ps + qs)[0] == ps[0] && (ps + qs)[1..] == ps[1..] + qs;
      ConcatAssociates(head, Keep(ps[1..], s), Keep(qs, s));
    }
  }

  lemma {:induction false} WithoutConcat(ps: seq<Pair>, qs: seq<Pair>, p: Pair)
    ensures Without(ps + qs, p) == Without(ps, p) + Without(qs, p)
  {
    if ps == [] {
      assert ps + qs == qs && Without(ps, p) + Without(qs, p) == Without(qs, p);
    } else {
      var head := if ps[0] != p then [ps[0]] else [];
      WithoutConcat(ps[1..], qs, p);
      assert (ps + qs)[0] == ps[0] && (ps + qs)[1..] == ps[1..] + qs;
      ConcatAssociates(head, Without(ps[1..], p), Without(qs, p));
    }
  }

  lemma {:induction false} KeepWithout(ps: seq<Pair>, s: set<Pair>, p: Pair)
    ensures Keep(Without(ps, p), s) == Without(Keep(ps, s), p)
  {
    if ps != [] {
      KeepWithout(ps[1..], s, p);
      var head := if ps[0] != p then [ps[0]] else [];
      KeepConcat(head, Without(ps[1..], p), s);
      WithoutConcat(if ps[0] in s then [ps[0]] else [], Keep(ps[1..], s), p);
    }
  }

  lemma {:induction false} WithoutAbsent(ps: seq<Pair>, p: Pair)
    requires p !in ps
    ensures Without(ps, p) == ps
  {
    if ps != [] {
      WithoutAbsent(ps[1..], p);
    }
  }

  /** Removing the head of a list without repeats leaves its tail. */
  lemma WithoutHead(ps: seq<Pair>)
    requires NoRepeats(ps) && ps != []
    ensures Without(ps, ps[0]) == ps[1..] && NoRepeats(ps[1..])
  {
    assert ps[0] !in ps[1..];
    WithoutAbsent(ps[1..], ps[0]);
  }
}
