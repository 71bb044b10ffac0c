/** The TCTI over the UEFI TCG2 protocol (`src/tcti-uefi.c`) as a state machine:
    transmit keeps the command, receive submits it. */
module TctiModel {
  import opened Common

  datatype State = FINAL | RECEIVE | TRANSMIT

  datatype Rc =
    | SUCCESS
    | BAD_REFERENCE
    | BAD_CONTEXT
    | BAD_SEQUENCE
    | BAD_VALUE
    | NOT_IMPLEMENTED
    | GENERAL_FAILURE
    | INSUFFICIENT_BUFFER
    | IO_ERROR

  const TPM2_HEADER_SIZE: nat := 10
  const TIMEOUT_BLOCK: int := -1

  // The EFI error codes that `receive` tells apart.
  const EFI_INVALID_PARAMETER: Status := 0x8000_0000_0000_0002
  const EFI_BUFFER_TOO_SMALL: Status := 0x8000_0000_0000_0005
  const EFI_DEVICE_ERROR: Status := 0x8000_0000_0000_0007
  const EFI_ACCESS_DENIED: Status := 0x8000_0000_0000_000F

  /** What `receive` makes of the status of a submission. */
  function SubmitRc(s: Status): Rc {
    if s == EFI_SUCCESS then SUCCESS
    else if s == EFI_INVALID_PARAMETER then BAD_VALUE
    else if s == EFI_BUFFER_TOO_SMALL then INSUFFICIENT_BUFFER
    else if s == EFI_DEVICE_ERROR then IO_ERROR
    else GENERAL_FAILURE
  }

  /** The conversion to the UINT32 parameters of `tcg2_submit_command`. */
  function Truncate32(n: nat): u32 {
    n % 0x1_0000_0000
  }

  // ---- The context and its calls ----

  /** An initialised context: state, capacity and command buffer. */
  datatype Tcti = Tcti(state: State, size: nat, buffer: seq<byte>)

  predicate Wellformed(t: Tcti) {
    t.size <= |t.buffer|
  }

  /** What the firmware will do in one `receive`: find the protocol, then answer
      the command. */
  datatype Firmware = Firmware(locate: Status, submit: Status)

  datatype Call =
    | Transmit(size: nat, command: Option<seq<byte>>)
    | Receive(outputSize: Option<nat>, wantsResponse: bool, timeout: int, firmware: Firmware)
    | Finalize

  /** The caller's part: a command buffer has the length it is said to have. */
  predicate Callable(c: Call) {
    c.Transmit? && c.command.Some? ==> c.size <= |c.command.value|
  }

  /** What a call does beyond changing the context: take a command in, or hand a
      block to the firmware. */
  datatype Action =
    | Accept(command: seq<byte>)
    | Submit(block: seq<byte>, outputSize: u32, status: Status)

  datatype Result = Result(tcti: Tcti, rc: Rc, actions: seq<Action>)

  /** `CopyMem` over the start of the buffer. */
  function Overlay(buffer: seq<byte>, command: seq<byte>): (r: seq<byte>)
    requires |command| <= |buffer|
    ensures |r| == |buffer|
  {
    command + buffer[|command|..]
  }

  /** The block a submission hands over: the whole buffer, cut to 32-bit length. */
  function Block(t: Tcti): seq<byte>
    requires Wellformed(t)
  {
    t.buffer[..Truncate32(t.size)]
  }

  function Step(t: Tcti, c: Call): (r: Result)
    requires Wellformed(t) && Callable(c)
    ensures Wellformed(r.tcti) && r.tcti.size == t.size && |r.tcti.buffer| == |t.buffer|
  {
    match c
    case Transmit(size, command) =>
      if command.None? then Result(t, BAD_REFERENCE, [])
      else if t.state != TRANSMIT then Result(t, BAD_SEQUENCE, [])
      else if size > t.size || size <= TPM2_HEADER_SIZE then Result(t, BAD_VALUE, [])
      else
        var taken := command.value[..size];
        Result(Tcti(RECEIVE, t.size, Overlay(t.buffer, taken)), SUCCESS, [Accept(taken)])
    case Receive(outputSize, wantsResponse, timeout, firmware) =>
      if outputSize.None? then Result(t, BAD_REFERENCE, [])
      else if timeout != TIMEOUT_BLOCK then Result(t, NOT_IMPLEMENTED, [])
      else if t.state != RECEIVE then Result(t, BAD_SEQUENCE, [])
      else if !wantsResponse then Result(t, SUCCESS, [])
      else if IsError(firmware.locate) then Result(t, GENERAL_FAILURE, [])
      else
        Result(if firmware.submit == EFI_SUCCESS then t.(state := TRANSMIT) else t,
               SubmitRc(firmware.submit),
               [Submit(Block(t), Truncate32(outputSize.value), firmware.submit)])
    case Finalize => Result(t.(state := FINAL), SUCCESS, [])
  }

  // ---- Runs ----

  predicate AllCallable(cs: seq<Call>) {
    forall i :: 0 <= i < |cs| ==> Callable(cs[i])
  }

  /** The context after a run, and everything the run did. */
  function Run(t: Tcti, cs: seq<Call>): (r: (Tcti, seq<Action>))
    requires Wellformed(t) && AllCallable(cs)
    ensures Wellformed(r.0) && r.0.size == t.size && |r.0.buffer| == |t.buffer|
    decreases |cs|
  {
    if cs == [] then (t, [])
    else
      var before := Run(t, cs[..|cs| - 1]);
      var last := Step(before.0, cs[|cs| - 1]);
      (last.tcti, before.1 + last.actions)
  }

  lemma RunSnoc(t: Tcti, cs: seq<Call>, c: Call)
    requires Wellformed(t) && AllCallable(cs) && Callable(c)
    ensures AllCallable(cs + [c])
    ensures var last := Step(Run(t, cs).0, c);
      Run(t, cs + [c]) == (last.tcti, Run(t, cs).1 + last.actions)
  {
    hide Step, Callable;
    var longer := cs + [c];
    assert longer[..|longer| - 1] == cs && longer[|longer| - 1] == c;
    assert AllCallable(longer);
  }

  lemma {:induction false} RunConcat(t: Tcti, cs: seq<Call>, ds: seq<Call>)
    requires Wellformed(t) && AllCallable(cs) && AllCallable(ds)
    ensures AllCallable(cs + ds)
    ensures Run(t, cs + ds) == (Run(Run(t, cs).0, ds).0, Run(t, cs).1 + Run(Run(t, cs).0, ds).1)
    decreases |ds|
  {
    hide Step, Callable;
    if ds == [] {
      assert cs + ds == cs;
      assert Run(t, cs).1 + [] == Run(t, cs).1;
    } else {
      var init, last := ds[..|ds| - 1], ds[|ds| - 1];
      RunConcat(t, cs, init);
      RunSnoc(t, cs + init, last);
      RunSnoc(Run(t, cs).0, init, last);
      assert cs + ds == cs + init + [last] && ds == init + [last];
      var r := Step(Run(Run(t, cs).0, init).0, last);
      assert Run(t, cs).1 + Run(Run(t, cs).0, init).1 + r.actions
          == Run(t, cs).1 + (Run(Run(t, cs).0, init).1 + r.actions);
    }
  }
}
