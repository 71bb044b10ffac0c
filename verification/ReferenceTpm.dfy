/** TPMs that keep to the contract exist: for any set of implemented banks, any
    contents and any number of digests per reply from 1 to 8. */
module ReferenceTpm {
  import opened Common
  import opened PcrSelection
  import opened PcrDump
  import opened PairLists
  import opened PcrRead
  import opened PcrDumpProperties

  function SetOf(ps: seq<Pair>): set<Pair> {
    set p | p in ps
  }

  /** The pairs of `ps` outside `keep`, in order. */
  function Others(ps: seq<Pair>, keep: set<Pair>): seq<Pair> {
    Keep(ps, SetOf(ps) - keep)
  }

  /** Answers with the first `limit` pairs wanted, by striking the others off. */
  function AnswerTo(implemented: set<Pair>, contents: (nat, Pair) -> DigestBytes, limit: nat,
                    read: nat, sent: seq<Selection>): Reply
  {
    if !IsWireList(sent) then
      Failure(1)
    else
      var request := Received(sent);
      var wanted := Wanted(implemented, request);
      var n := Min(limit, |wanted|);
      Success(Sent(StrikeAll(request, Others(Pairs(request), SetOf(wanted[..n])))),
              seq(n, k requires 0 <= k < n => contents(read, wanted[k])))
  }

  function Reference(implemented: set<Pair>, contents: (nat, Pair) -> DigestBytes, limit: nat): Tpm {
    Tpm(implemented, contents,
        (read: nat, sent: seq<Selection>) => AnswerTo(implemented, contents, limit, read, sent))
  }

  lemma {:induction false} KeepAgrees(ps: seq<Pair>, s: set<Pair>, t: set<Pair>)
    requires forall p :: p in ps ==> (p in s <==> p in t)
    ensures Keep(ps, s) == Keep(ps, t)
  {
    if ps != [] {
      KeepAgrees(ps[1..], s, t);
    }
  }

  lemma {:induction false} KeepKeep(ps: seq<Pair>, s: set<Pair>, t: set<Pair>)
    requires t <= s
    ensures Keep(Keep(ps, s), t) == Keep(ps, t)
  {
    if ps != [] {
      KeepKeep(ps[1..], s, t);
      KeepConcat(if ps[0] in s then [ps[0]] else [], Keep(ps[1..], s), t);
    }
  }

  lemma {:induction false} KeepPrefix(ps: seq<Pair>, n: nat)
    requires NoRepeats(ps) && n <= |ps|
    ensures Keep(ps, SetOf(ps[..n])) == ps[..n]
    decreases |ps|
  {
    if ps != [] {
      if n == 0 {
        KeepNone(ps);
      } else {
        var tail := ps[1..];
        KeepPrefix(tail, n - 1);
        assert ps[..n] == [ps[0]] + tail[..n - 1];
        forall p | p in tail ensures p in SetOf(ps[..n]) <==> p in SetOf(tail[..n - 1]) {
          assert p != ps[0];
        }
        KeepAgrees(tail, SetOf(ps[..n]), SetOf(tail[..n - 1]));
      }
    }
  }

  lemma {:induction false} KeepNone(ps: seq<Pair>)
    ensures Keep(ps, SetOf(ps[..0])) == []
  {
    if ps != [] {
      KeepNone(ps[1..]);
      assert SetOf(ps[..0]) == SetOf(ps[1..][..0]);
    }
  }

  /** Striking off a list of pairs removes those pairs and no others. */
  lemma {:induction false} PairsStrikeAll(request: seq<Selection>, ds: seq<Pair>)
    requires IsSelectionList(request)
    ensures Pairs(StrikeAll(request, ds)) == Keep(Pairs(request), SetOf(Pairs(request)) - SetOf(ds))
    decreases |ds|
  {
    hide Strike, Pairs;
    var ps := Pairs(request);
    if ds == [] {
      KeepAll(ps, SetOf(ps) - SetOf(ds));
    } else {
      var d := ds[0];
      PairsStrike(request, d);
      PairsStrikeAll(Strike(request, d), ds[1..]);
      WithoutIsKeep(ps, d);
      var rest := Without(ps, d);
      var s := SetOf(rest) - SetOf(ds[1..]);
      forall p ensures p in rest <==> p in ps && p != d {
        KeepContains(ps, SetOf(ps) - {d}, p);
      }
      assert s == SetOf(ps) - SetOf(ds);
      KeepKeep(ps, SetOf(ps) - {d}, s);
    }
  }

  lemma {:induction false} KeepAll(ps: seq<Pair>, s: set<Pair>)
    requires forall p :: p in ps ==> p in s
    ensures Keep(ps, s) == ps
  {
    if ps != [] {
      KeepAll(ps[1..], s);
    }
  }

  lemma {:induction false} WithoutIsKeep(ps: seq<Pair>, d: Pair)
    ensures Without(ps, d) == Keep(ps, SetOf(ps) - {d})
  {
    if ps != [] {
      WithoutIsKeep(ps[1..], d);
      KeepAgrees(ps[1..], SetOf(ps) - {d}, SetOf(ps[1..]) - {d});
    }
  }

  /** The struck-off selection holds exactly the pairs answered. */
  lemma AnswersPrefix(implemented: set<Pair>, request: seq<Selection>, limit: nat)
    requires Proper(implemented, request)
    ensures var wanted := Wanted(implemented, request);
      var n := Min(limit, |wanted|);
      Pairs(StrikeAll(request, Others(Pairs(request), SetOf(wanted[..n])))) == wanted[..n]
  {
    hide Strike, StrikeAll, Pairs;
    var ps, wanted := Pairs(request), Wanted(implemented, request);
    var n := Min(limit, |wanted|);
    var keep := SetOf(wanted[..n]);
    var ds := Others(ps, keep);
    PairsStrikeAll(request, ds);
    forall p | p in ps ensures p in SetOf(ps) - SetOf(ds) <==> p in keep {
      KeepContains(ps, SetOf(ps) - keep, p);
    }
    KeepAgrees(ps, SetOf(ps) - SetOf(ds), keep);
    forall p | p in keep ensures p in implemented {
      KeepContains(ps, implemented, p);
    }
    KeepKeep(ps, implemented, keep);
    KeepPrefix(wanted, n);
  }

  /** The contract of TPM2_PCR_Read can be met, whatever the reply size; with full
      replies it is met generously. */
  lemma ContractIsMet(implemented: set<Pair>, contents: (nat, Pair) -> DigestBytes, limit: nat)
    requires 1 <= limit <= MAX_DIGESTS
    requires forall p :: p in implemented ==> p.alg != ALG_ERROR
    ensures Conforms(Reference(implemented, contents, limit))
    ensures limit == MAX_DIGESTS ==> Generous(Reference(implemented, contents, limit))
  {
    hide StrikeAll, Pairs, Others, NoRepeats, Wanted, TopClear, Sent, Received;
    var tpm := Reference(implemented, contents, limit);
    forall read: nat, request | Proper(implemented, request)
      ensures Answers(tpm, read, request)
      ensures limit == MAX_DIGESTS ==> AnswersFully(tpm, read, request)
    {
      var wanted := Wanted(implemented, request);
      var n := Min(limit, |wanted|);
      AnswersPrefix(implemented, request, limit);
      SentIsAllIff(request);
      var answered := StrikeAll(request, Others(Pairs(request), SetOf(wanted[..n])));
      StrikeAllTopClear(request, Others(Pairs(request), SetOf(wanted[..n])));
      SentIsAllIff(answered);
    }
  }
}
