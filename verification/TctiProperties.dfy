/** What every run of transmit, receive and finalize calls keeps, whatever the
    firmware answers. */
module TctiProperties {
  import opened Common
  import opened TctiModel

  /** The commands a run accepted, in order. */
  function Accepted(trace: seq<Action>): seq<seq<byte>> {
    if trace == [] then []
    else
      var last := trace[|trace| - 1];
      Accepted(trace[..|trace| - 1]) + if last.Accept? then [last.command] else []
  }

  /** The blocks that were submitted with success, in order. */
  function Answered(trace: seq<Action>): seq<seq<byte>> {
    if trace == [] then []
    else
      var last := trace[|trace| - 1];
      Answered(trace[..|trace| - 1]) + if last.Submit? && last.status == EFI_SUCCESS then [last.block] else []
  }

  lemma TraceSnoc(trace: seq<Action>, a: Action)
    ensures Accepted(trace + [a]) == Accepted(trace) + if a.Accept? then [a.command] else []
    ensures Answered(trace + [a])
         == Answered(trace) + if a.Submit? && a.status == EFI_SUCCESS then [a.block] else []
  {
    assert (trace + [a])[..|trace|] == trace;
  }

  // ---- Command-buffer history ----

  /** Byte `i` of the most recent command longer than `i`, or the initial byte. */
  function LatestByte(initial: seq<byte>, commands: seq<seq<byte>>, i: nat): byte
    requires i < |initial|
    decreases commands
  {
    if commands == [] then initial[i]
    else
      var last := commands[|commands| - 1];
      if i < |last| then last[i] else LatestByte(initial, commands[..|commands| - 1], i)
  }

  /** The buffer those commands leave. */
  function History(initial: seq<byte>, commands: seq<seq<byte>>): (buffer: seq<byte>)
    ensures |buffer| == |initial|
  {
    seq(|initial|, i requires 0 <= i < |initial| => LatestByte(initial, commands, i))
  }

  lemma HistorySnoc(initial: seq<byte>, commands: seq<seq<byte>>, command: seq<byte>)
    requires |command| <= |initial|
    ensures History(initial, commands + [command]) == Overlay(History(initial, commands), command)
  {
    assert (commands + [command])[..|commands|] == commands;
  }

  /** A block handed over after these commands: the first 32-bit-size bytes of the
      history. It starts with the latest command exactly when that command is no
      longer than the size the firmware is told, and is that command exactly when
      it is as long. */
  predicate ShowsHistory(t: Tcti, commands: seq<seq<byte>>, block: seq<byte>)
    requires Wellformed(t)
  {
    && commands != []
    && block == History(t.buffer, commands)[..Truncate32(t.size)]
    && var latest := commands[|commands| - 1];
       && (latest <= block <==> |latest| <= Truncate32(t.size))
       && (block == latest <==> |latest| == Truncate32(t.size))
  }

  /** What one action of a run may be, given the actions before it. */
  predicate Honest(t: Tcti, before: seq<Action>, a: Action)
    requires Wellformed(t)
  {
    match a
    case Accept(command) => TPM2_HEADER_SIZE < |command| <= t.size
    case Submit(block, _, _) => ShowsHistory(t, Accepted(before), block)
  }

  predicate AllHonest(t: Tcti, trace: seq<Action>)
    requires Wellformed(t)
  {
    forall k :: 0 <= k < |trace| ==> Honest(t, trace[..k], trace[k])
  }

  lemma AllHonestSnoc(t: Tcti, trace: seq<Action>, a: Action)
    requires Wellformed(t) && AllHonest(t, trace) && Honest(t, trace, a)
    ensures AllHonest(t, trace + [a])
  {
    hide Honest;
    var longer := trace + [a];
    forall k | 0 <= k < |longer| ensures Honest(t, longer[..k], longer[k]) {
      assert longer[..k] == trace[..k];
    }
  }

  /** The context after a run: each byte of the buffer is that byte of the most
      recent accepted command long enough to have it, or its initial value. */
  predicate HoldsHistory(t: Tcti, now: Tcti, commands: seq<seq<byte>>) {
    && now.size == t.size
    && now.buffer == History(t.buffer, commands)
    && (now.state == RECEIVE ==> commands != [])
    && (forall k :: 0 <= k < |commands| ==> TPM2_HEADER_SIZE < |commands[k]| <= t.size)
  }

  lemma BlockShowsHistory(t: Tcti, now: Tcti, commands: seq<seq<byte>>)
    requires Wellformed(t) && HoldsHistory(t, now, commands) && commands != []
    ensures Wellformed(now) && ShowsHistory(t, commands, Block(now))
  {
    var latest := commands[|commands| - 1];
    var n := Truncate32(t.size);
    var buffer := History(t.buffer, commands);
    assert forall i :: 0 <= i < |latest| ==> buffer[i] == latest[i];
  }

  /** Command-buffer history, for every run of calls from a fresh context: the
      buffer is the overlay of the accepted commands, and so is every block handed
      to the firmware, at the time it was handed over. */
  lemma {:induction false} CommandBufferHistory(t: Tcti, cs: seq<Call>)
    requires Wellformed(t) && t.state == TRANSMIT && AllCallable(cs)
    ensures var (now, trace) := Run(t, cs);
      HoldsHistory(t, now, Accepted(trace)) && AllHonest(t, trace)
    decreases |cs|
  {
    hide Honest, ShowsHistory, Callable, History, Overlay, Block;
    if cs == [] {
      NoHistory(t.buffer);
    } else {
      var c := cs[|cs| - 1];
      CommandBufferHistory(t, cs[..|cs| - 1]);
      var (now, trace) := Run(t, cs[..|cs| - 1]);
      StepKeepsHistory(t, now, trace, c);
    }
  }

  lemma NoHistory(initial: seq<byte>)
    ensures History(initial, []) == initial
  {
  }

  lemma StepKeepsHistory(t: Tcti, now: Tcti, trace: seq<Action>, c: Call)
    requires Wellformed(t) && Wellformed(now) && Callable(c)
    requires HoldsHistory(t, now, Accepted(trace)) && AllHonest(t, trace)
    ensures var r := Step(now, c);
      HoldsHistory(t, r.tcti, Accepted(trace + r.actions)) && AllHonest(t, trace + r.actions)
  {
    hide ShowsHistory, History, Overlay, Block, AllHonest, Accepted;
    var commands := Accepted(trace);
    var r := Step(now, c);
    if r.actions == [] {
      assert trace + r.actions == trace;
    } else {
      var a := r.actions[0];
      assert r.actions == [a];
      TraceSnoc(trace, a);
      if a.Accept? {
        HistorySnoc(t.buffer, commands, a.command);
        var longer := commands + [a.command];
        assert Accepted(trace + [a]) == longer;
        assert forall k :: 0 <= k < |longer| ==>
          longer[k] == if k < |commands| then commands[k] else a.command;
      } else {
        assert Accepted(trace + [a]) == commands;
        BlockShowsHistory(t, now, commands);
      }
      AllHonestSnoc(t, trace, a);
    }
  }

  /** Every submission of every run: the block starts with the latest accepted
      command if and only if that is no longer than the 32-bit size, and is the
      command if and only if it is as long. */
  lemma SubmittedBlocks(t: Tcti, cs: seq<Call>, k: nat)
    requires Wellformed(t) && t.state == TRANSMIT && AllCallable(cs)
    requires k < |Run(t, cs).1| && Run(t, cs).1[k].Submit?
    ensures var trace := Run(t, cs).1;
      var commands := Accepted(trace[..k]);
      && commands != []
      && var latest, block := commands[|commands| - 1], trace[k].block;
         && |block| == Truncate32(t.size)
         && (latest <= block <==> |latest| <= Truncate32(t.size))
         && (block == latest <==> |latest| == Truncate32(t.size))
         && (t.size < 0x1_0000_0000 ==> latest <= block)
  {
    hide Run, Accepted, History;
    CommandBufferHistory(t, cs);
    var trace := Run(t, cs).1;
    assert Honest(t, trace[..k], trace[k]);
    AcceptedFit(t, trace, k);
  }

  /** What an honest trace has accepted fits the context. */
  lemma {:induction false} AcceptedFit(t: Tcti, trace: seq<Action>, k: nat)
    requires Wellformed(t) && AllHonest(t, trace) && k <= |trace|
    ensures forall j :: 0 <= j < |Accepted(trace[..k])| ==> |Accepted(trace[..k])[j]| <= t.size
    decreases k
  {
    hide ShowsHistory, Accepted;
    if k == 0 {
      NothingAccepted();
    } else {
      AcceptedFit(t, trace, k - 1);
      assert Honest(t, trace[..k - 1], trace[k - 1]);
      TraceSnoc(trace[..k - 1], trace[k - 1]);
      assert trace[..k] == trace[..k - 1] + [trace[k - 1]];
    }
  }

  lemma NothingAccepted()
    ensures Accepted([]) == []
  {
  }

  /** A context of 4 GB, more than any firmware asks for: the size the firmware is
      told is then 0, and the command it should answer is not in the block. */
  lemma TruncatedSubmission(t: Tcti, command: seq<byte>)
    requires t.state == TRANSMIT && t.size == |t.buffer| == 0x1_0000_0000 && |command| == 11
    ensures var cs := [Transmit(11, Some(command)),
                       Receive(Some(0), true, TIMEOUT_BLOCK, Firmware(EFI_SUCCESS, EFI_SUCCESS))];
      && AllCallable(cs)
      && Run(t, cs).1 == [Accept(command), Submit([], 0, EFI_SUCCESS)]
  {
    var transmit := Transmit(11, Some(command));
    var receive := Receive(Some(0), true, TIMEOUT_BLOCK, Firmware(EFI_SUCCESS, EFI_SUCCESS));
    RunSnoc(t, [], transmit);
    RunSnoc(t, [transmit], receive);
    assert command[..11] == command;
    assert [] + [transmit] == [transmit] && [transmit] + [receive] == [transmit, receive];
  }

  // ---- Trace grammar ----

  /** One accepted command and what was submitted for it: failed submissions, and
      the successful one once there is one. Each carries the size of the response
      buffer; all carry the same block. */
  datatype Group = Group(command: seq<byte>, block: seq<byte>, failures: seq<(u32, Status)>, answer: Option<u32>)

  function FailedSubmits(block: seq<byte>, failures: seq<(u32, Status)>): (r: seq<Action>) {
    seq(|failures|, k requires 0 <= k < |failures| => Submit(block, failures[k].0, failures[k].1))
  }

  function ExpandGroup(g: Group): seq<Action> {
    [Accept(g.command)] + FailedSubmits(g.block, g.failures)
    + if g.answer.Some? then [Submit(g.block, g.answer.value, EFI_SUCCESS)] else []
  }

  function Expand(gs: seq<Group>): seq<Action> {
    if gs == [] then [] else Expand(gs[..|gs| - 1]) + ExpandGroup(gs[|gs| - 1])
  }

  function Commands(gs: seq<Group>): (commands: seq<seq<byte>>)
    ensures |commands| == |gs|
  {
    seq(|gs|, k requires 0 <= k < |gs| => gs[k].command)
  }

  /** Group `k` hands over the history of the first `k + 1` commands, its failures
      are failures, and every group but the last is answered. */
  predicate Grammatical(t: Tcti, gs: seq<Group>)
    requires Wellformed(t)
  {
    && (forall k :: 0 <= k < |gs| ==> gs[k].block == History(t.buffer, Commands(gs)[..k + 1])[..Truncate32(t.size)])
    && (forall k, j :: 0 <= k < |gs| && 0 <= j < |gs[k].failures| ==> gs[k].failures[j].1 != EFI_SUCCESS)
    && (forall k :: 0 <= k < |gs| - 1 ==> gs[k].answer.Some?)
  }

  /** The last group is open exactly while a command waits to be answered. */
  predicate MatchesState(state: State, gs: seq<Group>) {
    && (state == RECEIVE ==> gs != [] && gs[|gs| - 1].answer.None?)
    && (state == TRANSMIT ==> gs == [] || gs[|gs| - 1].answer.Some?)
  }

  lemma ExpandSnoc(gs: seq<Group>, g: Group)
    ensures Expand(gs + [g]) == Expand(gs) + ExpandGroup(g)
  {
    hide ExpandGroup;
    var longer := gs + [g];
    assert longer[..|longer| - 1] == gs && longer[|longer| - 1] == g;
  }

  /** The groups with the last one replaced. */
  function WithLast(gs: seq<Group>, g: Group): (r: seq<Group>)
    requires gs != []
    ensures |r| == |gs| && r[|gs| - 1] == g
    ensures forall k :: 0 <= k < |gs| - 1 ==> r[k] == gs[k]
  {
    gs[..|gs| - 1] + [g]
  }

  /** One more submission of the open group's block continues that group. */
  function Submitted(g: Group, outputSize: u32, status: Status): Group {
    if status == EFI_SUCCESS then g.(answer := Some(outputSize))
    else g.(failures := g.failures + [(outputSize, status)])
  }

  lemma ExpandSubmitted(g: Group, outputSize: u32, status: Status)
    requires g.answer.None?
    ensures ExpandGroup(Submitted(g, outputSize, status)) == ExpandGroup(g) + [Submit(g.block, outputSize, status)]
  {
  }

  lemma AcceptOpensGroup(t: Tcti, gs: seq<Group>, command: seq<byte>) returns (gs': seq<Group>)
    requires Wellformed(t) && Grammatical(t, gs) && (gs == [] || gs[|gs| - 1].answer.Some?)
    ensures Expand(gs') == Expand(gs) + [Accept(command)]
    ensures Grammatical(t, gs') && MatchesState(RECEIVE, gs') && Commands(gs') == Commands(gs) + [command]
  {
    hide History, Expand;
    var commands := Commands(gs) + [command];
    var g := Group(command, History(t.buffer, commands)[..Truncate32(t.size)], [], None);
    gs' := gs + [g];
    ExpandSnoc(gs, g);
    assert ExpandGroup(g) == [Accept(command)];
    assert Commands(gs') == commands;
    forall k | 0 <= k < |gs'|
      ensures gs'[k].block == History(t.buffer, Commands(gs')[..k + 1])[..Truncate32(t.size)]
    {
      if k < |gs| {
        assert Commands(gs')[..k + 1] == Commands(gs)[..k + 1];
      } else {
        assert Commands(gs')[..k + 1] == commands;
      }
    }
  }

  lemma SubmitContinuesGroup(t: Tcti, now: Tcti, gs: seq<Group>, outputSize: u32, status: Status)
    returns (gs': seq<Group>)
    requires Wellformed(t) && Grammatical(t, gs) && MatchesState(RECEIVE, gs)
    requires HoldsHistory(t, now, Commands(gs))
    ensures Wellformed(now)
    ensures Expand(gs') == Expand(gs) + [Submit(Block(now), outputSize, status)]
    ensures Grammatical(t, gs') && Commands(gs') == Commands(gs)
    ensures MatchesState(if status == EFI_SUCCESS then TRANSMIT else RECEIVE, gs')
  {
    hide History, Expand, ExpandGroup;
    var n := |gs|;
    var g := gs[n - 1];
    gs' := WithLast(gs, Submitted(g, outputSize, status));
    assert Commands(gs)[..n] == Commands(gs) == Commands(gs');
    ExpandSubmitted(g, outputSize, status);
    assert gs == gs[..n - 1] + [g];
    ExpandSnoc(gs[..n - 1], g);
    ExpandSnoc(gs[..n - 1], Submitted(g, outputSize, status));
  }

  /** Trace grammar: in every run the actions split into groups, one per accepted
      command, of failed submissions and then at most one successful one, all of
      the same block; only the last group may be unanswered, and it is exactly in
      state RECEIVE. */
  lemma {:induction false} TraceGrammar(t: Tcti, cs: seq<Call>) returns (gs: seq<Group>)
    requires Wellformed(t) && t.state == TRANSMIT && AllCallable(cs)
    ensures var (now, trace) := Run(t, cs);
      && trace == Expand(gs)
      && Commands(gs) == Accepted(trace)
      && Grammatical(t, gs)
      && MatchesState(now.state, gs)
    decreases |cs|
  {
    hide Accepted, History, Callable, Grammatical, Expand, HoldsHistory, Overlay, Block;
    if cs == [] {
      gs := NoGroups(t);
    } else {
      var c := cs[|cs| - 1];
      var gs0 := TraceGrammar(t, cs[..|cs| - 1]);
      CommandBufferHistory(t, cs[..|cs| - 1]);
      var (now, trace) := Run(t, cs[..|cs| - 1]);
      gs := StepKeepsGrammar(t, now, trace, gs0, c);
    }
  }

  lemma NoGroups(t: Tcti) returns (gs: seq<Group>)
    requires Wellformed(t)
    ensures gs == [] && Expand(gs) == [] && Commands(gs) == Accepted([]) && Grammatical(t, gs)
  {
    gs := [];
  }

  lemma StepKeepsGrammar(t: Tcti, now: Tcti, trace: seq<Action>, gs: seq<Group>, c: Call) returns (gs': seq<Group>)
    requires Wellformed(t) && Wellformed(now) && Callable(c)
    requires trace == Expand(gs) && Commands(gs) == Accepted(trace)
    requires Grammatical(t, gs) && MatchesState(now.state, gs) && HoldsHistory(t, now, Commands(gs))
    ensures var r := Step(now, c);
      && trace + r.actions == Expand(gs')
      && Commands(gs') == Accepted(trace + r.actions)
      && Grammatical(t, gs')
      && MatchesState(r.tcti.state, gs')
  {
    hide Accepted, History, Grammatical, Expand, HoldsHistory, Overlay, Block, Commands;
    var r := Step(now, c);
    if r.actions == [] {
      assert trace + r.actions == trace;
      gs' := gs;
    } else {
      var a := r.actions[0];
      assert r.actions == [a];
      TraceSnoc(trace, a);
      if a.Accept? {
        gs' := AcceptOpensGroup(t, gs, a.command);
      } else {
        gs' := SubmitContinuesGroup(t, now, gs, a.outputSize, a.status);
        assert Accepted(trace + [a]) == Accepted(trace) + [];
      }
    }
  }

  // ---- Each command is answered once ----

  lemma AnsweredOf(gs: seq<Group>)
    requires forall k, j :: 0 <= k < |gs| && 0 <= j < |gs[k].failures| ==> gs[k].failures[j].1 != EFI_SUCCESS
    requires forall k :: 0 <= k < |gs| - 1 ==> gs[k].answer.Some?
    ensures var n := if gs != [] && gs[|gs| - 1].answer.None? then |gs| - 1 else |gs|;
      && |Answered(Expand(gs))| == n
      && forall k :: 0 <= k < n ==> Answered(Expand(gs))[k] == gs[k].block
    decreases |gs|
  {
    hide ExpandGroup;
    if gs != [] {
      var init, g := gs[..|gs| - 1], gs[|gs| - 1];
      AnsweredOf(init);
      AnsweredGroup(Expand(init), g);
    }
  }

  lemma AnsweredGroup(trace: seq<Action>, g: Group)
    requires forall j :: 0 <= j < |g.failures| ==> g.failures[j].1 != EFI_SUCCESS
    ensures Answered(trace + ExpandGroup(g)) == Answered(trace) + if g.answer.Some? then [g.block] else []
  {
    hide Answered, FailedSubmits;
    var failed := FailedSubmits(g.block, g.failures);
    var started := trace + [Accept(g.command)];
    TraceSnoc(trace, Accept(g.command));
    AnsweredFailures(started, g.block, g.failures);
    if g.answer.Some? {
      var last := Submit(g.block, g.answer.value, EFI_SUCCESS);
      TraceSnoc(started + failed, last);
      ConcatAssociates(trace, [Accept(g.command)] + failed, [last]);
    } else {
      assert ExpandGroup(g) == [Accept(g.command)] + failed;
    }
    ConcatAssociates(trace, [Accept(g.command)], failed);
  }

  lemma {:induction false} AnsweredFailures(trace: seq<Action>, block: seq<byte>, failures: seq<(u32, Status)>)
    requires forall j :: 0 <= j < |failures| ==> failures[j].1 != EFI_SUCCESS
    ensures Answered(trace + FailedSubmits(block, failures)) == Answered(trace)
    decreases |failures|
  {
    hide Answered;
    if failures == [] {
      assert trace + FailedSubmits(block, failures) == trace;
    } else {
      var init, f := failures[..|failures| - 1], failures[|failures| - 1];
      AnsweredFailures(trace, block, init);
      var a := Submit(block, f.0, f.1);
      TraceSnoc(trace + FailedSubmits(block, init), a);
      assert trace + FailedSubmits(block, failures) == trace + FailedSubmits(block, init) + [a];
    }
  }

  /** In every run the k-th successful submission carries the k-th accepted command
      (whole, exactly when it fits the size the firmware is told), and until the
      context is finalised the accepted commands outnumber the successful
      submissions by one in RECEIVE and by none in TRANSMIT. */
  lemma EachCommandAnsweredOnce(t: Tcti, cs: seq<Call>)
    requires Wellformed(t) && t.state == TRANSMIT && AllCallable(cs)
    ensures var (now, trace) := Run(t, cs);
      var commands, answers := Accepted(trace), Answered(trace);
      && |answers| <= |commands| <= |answers| + 1
      && (now.state == RECEIVE ==> |commands| == |answers| + 1)
      && (now.state == TRANSMIT ==> |commands| == |answers|)
      && forall k :: 0 <= k < |answers| ==> ShowsHistory(t, commands[..k + 1], answers[k])
  {
    hide Run, Accepted, Answered, History, Expand, Callable;
    var gs := TraceGrammar(t, cs);
    CommandBufferHistory(t, cs);
    AnsweredOf(gs);
    var (now, trace) := Run(t, cs);
    var commands, answers := Accepted(trace), Answered(trace);
    forall k | 0 <= k < |answers| ensures ShowsHistory(t, commands[..k + 1], answers[k]) {
      HistoryShows(t, commands[..k + 1]);
    }
  }

  lemma HistoryShows(t: Tcti, commands: seq<seq<byte>>)
    requires Wellformed(t) && commands != []
    requires forall k :: 0 <= k < |commands| ==> |commands[k]| <= t.size
    ensures ShowsHistory(t, commands, History(t.buffer, commands)[..Truncate32(t.size)])
  {
    var latest := commands[|commands| - 1];
    var buffer := History(t.buffer, commands);
    assert forall i :: 0 <= i < |latest| ==> buffer[i] == latest[i];
  }

  // ---- Submissions and the calls that make them ----

  /** What a run submitted, in order. */
  function Submissions(trace: seq<Action>): (r: seq<Action>)
    ensures forall j :: 0 <= j < |r| ==> r[j].Submit?
  {
    if trace == [] then []
    else
      var last := trace[|trace| - 1];
      Submissions(trace[..|trace| - 1]) + if last.Submit? then [last] else []
  }

  /** A receive with a size, a response buffer and the blocking timeout, while the
      firmware has the protocol. */
  predicate ReachesFirmware(c: Call) {
    && c.Receive? && c.outputSize.Some? && c.wantsResponse && c.timeout == -1
    && c.firmware.locate < 0x8000_0000_0000_0000
  }

  /** The calls of a run that do so while a command waits, in order. */
  function SubmittingCalls(t: Tcti, cs: seq<Call>): (r: seq<Call>)
    requires Wellformed(t) && AllCallable(cs)
    ensures forall j :: 0 <= j < |r| ==> ReachesFirmware(r[j])
    decreases |cs|
  {
    if cs == [] then []
    else
      var before, c := cs[..|cs| - 1], cs[|cs| - 1];
      SubmittingCalls(t, before)
      + if Run(t, before).0.state == RECEIVE && ReachesFirmware(c) then [c] else []
  }

  /** One submission for each call, with the room for the response that the call
      gives, in 32 bits, and the status the firmware answers it with. */
  predicate MatchCalls(submissions: seq<Action>, calls: seq<Call>)
    requires forall j :: 0 <= j < |submissions| ==> submissions[j].Submit?
  {
    && |submissions| == |calls|
    && forall j :: 0 <= j < |calls| ==>
         && ReachesFirmware(calls[j])
         && submissions[j].outputSize == calls[j].outputSize.value % 0x1_0000_0000
         && submissions[j].status == calls[j].firmware.submit
  }

  /** In every run the j-th submission is that of the j-th call that reaches the
      firmware while a command waits, and there is no other. */
  lemma {:induction false} SubmissionsMatchCalls(t: Tcti, cs: seq<Call>)
    requires Wellformed(t) && AllCallable(cs)
    ensures MatchCalls(Submissions(Run(t, cs).1), SubmittingCalls(t, cs))
    decreases |cs|
  {
    hide Callable, Overlay, Block, Submissions;
    if cs == [] {
      NothingSubmitted();
    } else {
      var before, c := cs[..|cs| - 1], cs[|cs| - 1];
      SubmissionsMatchCalls(t, before);
      var (now, trace) := Run(t, before);
      StepSubmits(now, c);
      var r := Step(now, c);
      if r.actions == [] {
        assert trace + r.actions == trace;
      } else {
        SubmissionsSnoc(trace, r.actions[0]);
        assert r.actions == [r.actions[0]];
      }
    }
  }

  lemma NothingSubmitted()
    ensures Submissions([]) == []
  {
  }

  lemma SubmissionsSnoc(trace: seq<Action>, a: Action)
    ensures Submissions(trace + [a]) == Submissions(trace) + if a.Submit? then [a] else []
  {
    assert (trace + [a])[..|trace|] == trace;
  }

  /** A call submits if and only if a command waits and the call reaches the
      firmware. */
  lemma StepSubmits(t: Tcti, c: Call)
    requires Wellformed(t) && Callable(c)
    ensures var actions := Step(t, c).actions;
      && |actions| <= 1
      && (actions != [] && actions[0].Submit? <==> t.state == RECEIVE && ReachesFirmware(c))
      && (actions != [] && actions[0].Submit? ==>
            && actions[0].outputSize == c.outputSize.value % 0x1_0000_0000
            && actions[0].status == c.firmware.submit)
  {
    hide Overlay, Block;
  }

  // ---- Finalisation ----

  /** A context is final exactly once it was finalised. */
  lemma {:induction false} FinalIffFinalized(t: Tcti, cs: seq<Call>)
    requires Wellformed(t) && t.state != FINAL && AllCallable(cs)
    ensures Run(t, cs).0.state == FINAL <==> Finalize in cs
    decreases |cs|
  {
    hide Callable, Overlay, Block, SubmitRc;
    if cs != [] {
      var before, c := cs[..|cs| - 1], cs[|cs| - 1];
      FinalIffFinalized(t, before);
      assert cs == before + [c];
    }
  }

  /** After finalisation nothing is accepted or submitted, whatever is called. */
  lemma {:induction false} FinalIsSilent(t: Tcti, cs: seq<Call>)
    requires Wellformed(t) && t.state == FINAL && AllCallable(cs)
    ensures Run(t, cs) == (t, [])
    decreases |cs|
  {
    hide History, Accepted, Answered, Overlay, Block, SubmitRc;
    if cs != [] {
      var init, last := cs[..|cs| - 1], cs[|cs| - 1];
      FinalIsSilent(t, init);
      RunSnoc(t, init, last);
      assert cs == init + [last];
      var r := Step(t, last);
      assert r.tcti == t && r.actions == [];
      assert Run(t, cs) == (r.tcti, Run(t, init).1 + r.actions);
      assert Run(t, init).1 + r.actions == [];
    }
  }

  /** So a run does nothing after its first finalisation. */
  lemma FinalizeEndsRun(t: Tcti, cs: seq<Call>, ds: seq<Call>)
    requires Wellformed(t) && AllCallable(cs) && AllCallable(ds)
    ensures AllCallable(cs + [Finalize] + ds)
    ensures Run(t, cs + [Finalize] + ds) == (Run(t, cs).0.(state := FINAL), Run(t, cs).1)
  {
    hide Run, AllCallable;
    RunSnoc(t, cs, Finalize);
    RunConcat(t, cs + [Finalize], ds);
    FinalIsSilent(Run(t, cs + [Finalize]).0, ds);
    assert Run(t, cs).1 + [] == Run(t, cs).1;
  }

  // ---- What the caller can rely on ----

  /** After any run, a command is accepted exactly when the context is in TRANSMIT
      and the command is not null, longer than a header and no longer than the
      capacity the context was given at first. */
  lemma AcceptedExactlyWhen(t: Tcti, cs: seq<Call>, size: nat, command: Option<seq<byte>>)
    requires Wellformed(t) && AllCallable(cs) && Callable(Transmit(size, command))
    ensures var now := Run(t, cs).0;
      var r := Step(now, Transmit(size, command));
      && (r.rc == SUCCESS <==>
            now.state == TRANSMIT && command.Some? && 10 < size <= t.size)
      && (r.rc == SUCCESS <==> r.actions != [])
      && (r.rc != SUCCESS ==> r.tcti == now)
  {
  }

  /** A submission that fails changes nothing: the next receive hands over the same
      block again, until one succeeds. */
  lemma FailedReceiveRetries(t: Tcti, outputSize: nat, failed: Firmware, again: Firmware)
    requires Wellformed(t) && t.state == RECEIVE
    requires failed.locate < 0x8000_0000_0000_0000 && again.locate < 0x8000_0000_0000_0000
    requires failed.submit != EFI_SUCCESS
    ensures var first := Step(t, Receive(Some(outputSize), true, TIMEOUT_BLOCK, failed));
      var second := Step(first.tcti, Receive(Some(outputSize), true, TIMEOUT_BLOCK, again));
      && first.tcti == t && first.rc != SUCCESS
      && |first.actions| == |second.actions| == 1
      && first.actions[0].block == second.actions[0].block
      && first.actions[0].outputSize == second.actions[0].outputSize == outputSize % 0x1_0000_0000
      && (second.rc == SUCCESS <==> again.submit == EFI_SUCCESS)
      && (second.rc == SUCCESS <==> second.tcti.state == TRANSMIT)
  {
  }
}
