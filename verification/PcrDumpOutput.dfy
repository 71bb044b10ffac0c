/** The printed form of a dump: PCR lines do not name their bank, the headings
    between them do. */
module PcrDumpOutput {
  import opened Common
  import opened BankBitmap
  import opened PcrSelection
  import opened PcrDump
  import opened PairLists
  import opened PcrRead
  import opened PcrDumpRun
  import opened PcrDumpProperties

  /** What a reader who attributes each PCR line to the last heading above it
      makes of the output. */
  function ReadBack(bank: u16, lines: seq<Line>): seq<(Pair, DigestBytes)>
    decreases lines
  {
    if lines == [] then []
    else
      match lines[0]
      case Disagree => ReadBack(bank, lines[1..])
      case Bank(alg) => ReadBack(alg, lines[1..])
      case Pcr(pcr, digest) => [(Pair(bank, pcr), digest)] + ReadBack(bank, lines[1..])
  }

  function Shown(vs: seq<Visit>): seq<(Pair, DigestBytes)> {
    seq(|vs|, k requires 0 <= k < |vs| => (vs[k].pair, vs[k].digest))
  }

  lemma {:induction false} ReadBackVisit(bank: u16, v: Visit, rest: seq<Line>)
    ensures ReadBack(bank, LinesFor(bank, v.pair, v.digest) + rest)
         == [(v.pair, v.digest)] + ReadBack(v.pair.alg, rest)
  {
    var pcr := [Pcr(v.pair.pcr, v.digest)];
    var heading := if bank != v.pair.alg then [Bank(v.pair.alg)] else [];
    var complaint := if AlgSize(v.pair.alg) != |v.digest| then [Disagree] else [];
    assert LinesFor(bank, v.pair, v.digest) + rest == complaint + (heading + (pcr + rest));
    assert (pcr + rest)[1..] == rest;
    assert ReadBack(v.pair.alg, pcr + rest) == [(v.pair, v.digest)] + ReadBack(v.pair.alg, rest);
    assert bank != v.pair.alg ==> (heading + (pcr + rest))[1..] == pcr + rest;
    assert bank == v.pair.alg ==> heading + (pcr + rest) == pcr + rest;
    var after := heading + (pcr + rest);
    assert complaint != [] ==> (complaint + after)[1..] == after;
    assert complaint == [] ==> complaint + after == after;
  }

  /** The headings suffice: read that way, the output gives back every pair and
      digest shown, in order, whatever order they came in. */
  lemma {:induction false} OutputReadsBack(bank: u16, vs: seq<Visit>)
    ensures ReadBack(bank, Lines(bank, vs)) == Shown(vs)
    decreases |vs|
  {
    hide LinesFor, ReadBack;
    if vs == [] {
      NothingReadsBack(bank);
    } else {
      ReadBackVisit(bank, vs[0], Lines(vs[0].pair.alg, vs[1..]));
      OutputReadsBack(vs[0].pair.alg, vs[1..]);
      assert Shown(vs) == [(vs[0].pair, vs[0].digest)] + Shown(vs[1..]);
    }
  }

  lemma NothingReadsBack(bank: u16)
    ensures ReadBack(bank, []) == []
  {
  }

  // ---- Headings ----

  /** `alg` is shown somewhere in `vs`. */
  predicate Shows(vs: seq<Visit>, alg: u16) {
    exists k :: 0 <= k < |vs| && vs[k].pair.alg == alg
  }

  /** Visits in order, none of a bank before `bank`, as they are when `bank` was
      the last one shown or nothing was yet. */
  predicate ContinuesFrom(bank: u16, vs: seq<Visit>) {
    && InOrder(PairsOf(vs))
    && forall k :: 0 <= k < |vs| ==>
         vs[k].pair.alg == bank || bank == ALG_ERROR || BankBit(bank) < BankBit(vs[k].pair.alg)
  }

  lemma ContinuesFromTail(bank: u16, vs: seq<Visit>)
    requires ContinuesFrom(bank, vs) && vs != []
    ensures ContinuesFrom(vs[0].pair.alg, vs[1..])
    ensures bank != ALG_ERROR && bank != vs[0].pair.alg ==> !Shows(vs[1..], bank)
  {
    hide BankBit;
    var ps := PairsOf(vs);
    assert PairsOf(vs[1..]) == ps[1..];
    forall k | 0 <= k < |vs[1..]|
      ensures vs[1..][k].pair.alg == vs[0].pair.alg || BankBit(vs[0].pair.alg) < BankBit(vs[1..][k].pair.alg)
    {
      assert Before(ps[0], ps[k + 1]);
    }
  }

  /** How often a heading for `alg` is printed. */
  function Headings(lines: seq<Line>, alg: u16): nat {
    if lines == [] then 0 else (if lines[0] == Bank(alg) then 1 else 0) + Headings(lines[1..], alg)
  }

  lemma {:induction false} HeadingsConcat(a: seq<Line>, b: seq<Line>, alg: u16)
    ensures Headings(a + b, alg) == Headings(a, alg) + Headings(b, alg)
  {
    if a == [] {
      assert a + b == b;
    } else {
      HeadingsConcat(a[1..], b, alg);
      assert (a + b)[1..] == a[1..] + b;
    }
  }

  lemma HeadingsOfVisit(bank: u16, p: Pair, digest: DigestBytes, alg: u16)
    ensures Headings(LinesFor(bank, p, digest), alg) == if p.alg == alg && bank != alg then 1 else 0
  {
    var complaint := if AlgSize(p.alg) != |digest| then [Disagree] else [];
    var heading := if bank != p.alg then [Bank(p.alg)] else [];
    HeadingsConcat(complaint + heading, [Pcr(p.pcr, digest)], alg);
    HeadingsConcat(complaint, heading, alg);
    assert [Pcr(p.pcr, digest)][1..] == [] && [Bank(p.alg)][1..] == [] && [Disagree][1..] == [];
  }

  lemma {:induction false} HeadingsCount(bank: u16, vs: seq<Visit>, alg: u16)
    requires ContinuesFrom(bank, vs) && alg != ALG_ERROR
    ensures Headings(Lines(bank, vs), alg) == if Shows(vs, alg) && alg != bank then 1 else 0
    decreases |vs|
  {
    hide BankBit, LinesFor, InOrder, Headings;
    if vs == [] {
      NoHeadings(alg);
    } else {
      var p := vs[0].pair;
      ContinuesFromTail(bank, vs);
      HeadingsCount(p.alg, vs[1..], alg);
      HeadingsConcat(LinesFor(bank, p, vs[0].digest), Lines(p.alg, vs[1..]), alg);
      HeadingsOfVisit(bank, p, vs[0].digest, alg);
      assert Shows(vs, alg) <==> p.alg == alg || Shows(vs[1..], alg) by {
        assert forall k :: 0 < k < |vs| ==> vs[k] == vs[1..][k - 1];
        assert forall k :: 0 <= k < |vs[1..]| ==> vs[1..][k] == vs[k + 1];
      }
    }
  }

  lemma NoHeadings(alg: u16)
    ensures Headings([], alg) == 0
  {
  }

  /** Line `j` is the heading of the bank of visit `i`, the next line shows that
      visit, and it is the bank's first. */
  predicate StartsBank(lines: seq<Line>, j: nat, vs: seq<Visit>, i: nat) {
    && i < |vs| && j + 1 < |lines|
    && lines[j] == Bank(vs[i].pair.alg)
    && lines[j + 1] == Pcr(vs[i].pair.pcr, vs[i].digest)
    && !Shows(vs[..i], vs[i].pair.alg)
  }

  lemma LinesForShape(bank: u16, p: Pair, digest: DigestBytes, j: nat)
    requires j < |LinesFor(bank, p, digest)| && LinesFor(bank, p, digest)[j].Bank?
    ensures bank != p.alg && LinesFor(bank, p, digest)[j] == Bank(p.alg)
    ensures j + 2 == |LinesFor(bank, p, digest)| && LinesFor(bank, p, digest)[j + 1] == Pcr(p.pcr, digest)
  {
  }

  lemma {:induction false} HeadingFound(lines: seq<Line>, j: nat, alg: u16)
    requires j < |lines| && lines[j] == Bank(alg)
    ensures Headings(lines, alg) > 0
  {
    if j > 0 {
      HeadingFound(lines[1..], j - 1, alg);
    }
  }

  /** Every heading is followed at once by the line of its bank's first visit. */
  lemma {:induction false} HeadingPrecedesFirst(bank: u16, vs: seq<Visit>, j: nat) returns (i: nat)
    requires ContinuesFrom(bank, vs)
    requires forall k :: 0 <= k < |vs| ==> vs[k].pair.alg != ALG_ERROR
    requires j < |Lines(bank, vs)| && Lines(bank, vs)[j].Bank?
    ensures StartsBank(Lines(bank, vs), j, vs, i)
    decreases |vs|
  {
    hide LinesFor, InOrder, Headings, BankBit;
    var v := vs[0];
    var first, rest := LinesFor(bank, v.pair, v.digest), Lines(v.pair.alg, vs[1..]);
    assert Lines(bank, vs) == first + rest;
    if j < |first| {
      LinesForShape(bank, v.pair, v.digest, j);
      i := 0;
    } else {
      ContinuesFromTail(bank, vs);
      var i' := HeadingPrecedesFirst(v.pair.alg, vs[1..], j - |first|);
      i := i' + 1;
      var alg := vs[i].pair.alg;
      assert vs[i] == vs[1..][i'];
      HeadingFound(rest, j - |first|, alg);
      HeadingsCount(v.pair.alg, vs[1..], alg);
      forall k | 0 <= k < i ensures vs[k].pair.alg != alg {
        if k > 0 {
          assert vs[k] == vs[1..][..i'][k - 1];
        }
      }
    }
  }

  /** Over the whole multi-read run each bank with a PCR shown gets its heading
      exactly once, and any other bank none, however its PCRs were spread over
      the reads; a heading stands immediately before its bank's first PCR. */
  lemma BankHeadings(tpm: Tpm, b: bv32)
    requires Conforms(tpm) && OneBits(b) <= MAX_SELECTIONS
    ensures Proper(tpm.implemented, FirstRequest(b))
    ensures var vs := DumpFrom(tpm, 0, FirstRequest(b)).visits;
      var lines := Lines(ALG_ERROR, vs);
      && (forall alg :: alg != ALG_ERROR ==> Headings(lines, alg) == if Shows(vs, alg) then 1 else 0)
      && (forall j: nat :: j < |lines| && lines[j].Bank? ==> exists i :: StartsBank(lines, j, vs, i))
  {
    hide OneBits, FirstRequest, DumpFrom, Conforms, Proper, InOrder, Lines, Headings, StartsBank, Shows, IsActive;
    ExactlyOnce(tpm, b);
    var vs := DumpFrom(tpm, 0, FirstRequest(b)).visits;
    forall k | 0 <= k < |vs| ensures vs[k].pair.alg != ALG_ERROR {
      assert PairsOf(vs)[k] in PairsOf(vs);
      ImplementedBank(tpm, vs[k].pair);
    }
    forall alg: u16 | alg != ALG_ERROR
      ensures Headings(Lines(ALG_ERROR, vs), alg) == if Shows(vs, alg) then 1 else 0
    {
      HeadingsCount(ALG_ERROR, vs, alg);
    }
    forall j: nat | j < |Lines(ALG_ERROR, vs)| && Lines(ALG_ERROR, vs)[j].Bank?
      ensures exists i :: StartsBank(Lines(ALG_ERROR, vs), j, vs, i)
    {
      var i := HeadingPrecedesFirst(ALG_ERROR, vs, j);
    }
  }

  lemma ImplementedBank(tpm: Tpm, p: Pair)
    requires Conforms(tpm) && p in tpm.implemented
    ensures p.alg != ALG_ERROR
  {
  }

  /** The size complaint appears exactly when a shown digest does not have the
      size of its bank's algorithm. */
  lemma {:induction false} ComplaintsMeanWrongSize(bank: u16, vs: seq<Visit>)
    ensures Disagree in Lines(bank, vs) <==>
      exists k :: 0 <= k < |vs| && |vs[k].digest| != AlgSize(vs[k].pair.alg)
    decreases |vs|
  {
    hide AlgSize;
    if vs != [] {
      ComplaintsMeanWrongSize(vs[0].pair.alg, vs[1..]);
      assert forall k :: 0 < k < |vs| ==> vs[k] == vs[1..][k - 1];
    }
  }

  /** How many complaints stand between each PCR line and the one before it. */
  function Complaints(lines: seq<Line>, pending: nat): seq<nat>
    decreases lines
  {
    if lines == [] then []
    else
      match lines[0]
      case Disagree => Complaints(lines[1..], pending + 1)
      case Bank(_) => Complaints(lines[1..], pending)
      case Pcr(_, _) => [pending] + Complaints(lines[1..], 0)
  }

  lemma ComplaintsStep(line: Line, rest: seq<Line>, pending: nat)
    ensures Complaints([line] + rest, pending)
         == match line
            case Disagree => Complaints(rest, pending + 1)
            case Bank(_) => Complaints(rest, pending)
            case Pcr(_, _) => [pending] + Complaints(rest, 0)
  {
    assert ([line] + rest)[1..] == rest;
  }

  lemma ComplaintsOfVisit(bank: u16, p: Pair, digest: DigestBytes, rest: seq<Line>)
    ensures Complaints(LinesFor(bank, p, digest) + rest, 0)
         == [if |digest| == AlgSize(p.alg) then 0 else 1] + Complaints(rest, 0)
  {
    hide AlgSize, Complaints;
    var pcr := [Pcr(p.pcr, digest)] + rest;
    var heading := if bank != p.alg then [Bank(p.alg)] + pcr else pcr;
    var pending := if AlgSize(p.alg) != |digest| then 1 else 0;
    ComplaintsStep(Pcr(p.pcr, digest), rest, pending);
    ComplaintsStep(Bank(p.alg), pcr, pending);
    ComplaintsStep(Disagree, heading, 0);
    assert LinesFor(bank, p, digest) + rest == if pending == 1 then [Disagree] + heading else heading;
  }

  /** Each PCR line has one complaint before it, after the PCR line above, when its
      digest has the wrong size, and none otherwise. */
  lemma {:induction false} ComplaintsPrecede(bank: u16, vs: seq<Visit>)
    ensures Complaints(Lines(bank, vs), 0)
         == seq(|vs|, k requires 0 <= k < |vs| => if |vs[k].digest| == AlgSize(vs[k].pair.alg) then 0 else 1)
    decreases |vs|
  {
    hide AlgSize, LinesFor;
    if vs != [] {
      var v := vs[0];
      ComplaintsPrecede(v.pair.alg, vs[1..]);
      ComplaintsOfVisit(bank, v.pair, v.digest, Lines(v.pair.alg, vs[1..]));
    }
  }

  // ---- What a reader of the output learns ----

  /** The pairs a reader of the whole output sees, in order. */
  function PairsPrinted(lines: seq<Line>): (ps: seq<Pair>)
    ensures |ps| == |ReadBack(ALG_ERROR, lines)|
  {
    var shown := ReadBack(ALG_ERROR, lines);
    seq(|shown|, k requires 0 <= k < |shown| => shown[k].0)
  }

  /** The digest is the PCR's contents at one of the first reads. */
  predicate WasRead(tpm: Tpm, readCount: nat, p: Pair, digest: DigestBytes) {
    exists read: nat :: read < readCount && digest == tpm.contents(read, p)
  }

  /** The output shows, in bank order and then ascending, no pair twice, implemented
      PCRs below 24 of active known banks only, each with its contents at one of
      the reads; and each bank shown has one heading. */
  predicate Sound(tpm: Tpm, b: bv32, printed: seq<Line>, readCount: nat) {
    var shown := PairsPrinted(printed);
    && InOrder(shown) && NoRepeats(shown)
    && (forall p :: p in shown ==> p in tpm.implemented && IsActive(b, p.alg) && p.pcr < SELECTED_PCRS)
    && (forall k :: 0 <= k < |shown| ==> WasRead(tpm, readCount, shown[k], ReadBack(ALG_ERROR, printed)[k].1))
    && (forall alg: u16 :: alg != ALG_ERROR ==>
          Headings(printed, alg) == if exists k :: 0 <= k < |shown| && shown[k].alg == alg then 1 else 0)
  }

  /** The output leaves none of those PCRs out. */
  ghost predicate Complete(tpm: Tpm, b: bv32, printed: seq<Line>) {
    forall p :: p in tpm.implemented && IsActive(b, p.alg) && p.pcr < SELECTED_PCRS ==> p in PairsPrinted(printed)
  }

  lemma PairsPrintedAreShown(vs: seq<Visit>)
    ensures PairsPrinted(Lines(ALG_ERROR, vs)) == PairsOf(vs)
    ensures forall k :: 0 <= k < |vs| ==> ReadBack(ALG_ERROR, Lines(ALG_ERROR, vs))[k].1 == vs[k].digest
  {
    OutputReadsBack(ALG_ERROR, vs);
  }

  /** The output of every run is sound, and complete when the run succeeds. */
  lemma RunOutput(tpm: Tpm, b: bv32)
    requires Conforms(tpm) && OneBits(b) <= MAX_SELECTIONS
    ensures Proper(tpm.implemented, FirstRequest(b))
    ensures var run := DumpFrom(tpm, 0, FirstRequest(b));
      && Sound(tpm, b, Lines(ALG_ERROR, run.visits), run.readCount)
      && (run.rc == 0 ==> Complete(tpm, b, Lines(ALG_ERROR, run.visits)))
  {
    hide OneBits, FirstRequest, DumpFrom, Conforms, Proper, InOrder, NoRepeats, Lines, Headings, Shows, IsActive,
      ReadBack, PairsPrinted, StartsBank;
    ExactlyOnce(tpm, b);
    BankHeadings(tpm, b);
    var run := DumpFrom(tpm, 0, FirstRequest(b));
    RunShowsContents(tpm, 0, FirstRequest(b));
    PairsPrintedAreShown(run.visits);
    var printed, shown := Lines(ALG_ERROR, run.visits), PairsOf(run.visits);
    forall k | 0 <= k < |shown|
      ensures WasRead(tpm, run.readCount, shown[k], ReadBack(ALG_ERROR, printed)[k].1)
    {
      var v := run.visits[k];
      assert v in run.visits && v.digest == tpm.contents(v.read, v.pair);
    }
    forall alg: u16
      ensures Shows(run.visits, alg) <==> exists k :: 0 <= k < |shown| && shown[k].alg == alg
    {
      ShowsPair(run.visits, alg);
    }
  }

  lemma ShowsPair(vs: seq<Visit>, alg: u16)
    ensures Shows(vs, alg) <==> exists k :: 0 <= k < |PairsOf(vs)| && PairsOf(vs)[k].alg == alg
  {
    if Shows(vs, alg) {
      var k :| 0 <= k < |vs| && vs[k].pair.alg == alg;
      assert PairsOf(vs)[k].alg == alg;
    }
  }
}
