/** The TCTI context as the program keeps it: a caller-supplied block of memory
    whose fields the calls update (`src/tcti-uefi.c`). */
module TctiContext {
  import opened Common
  import opened TctiModel
  import opened TctiProperties

  const TCTI_UEFI_MAGIC: nat := 0x3a2e16965be011f2
  const TCTI_UEFI_VERSION: nat := 2
  /** sizeof (TSS2_TCTI_UEFI_CONTEXT) with 64-bit pointers, up to `cmd_buf`. */
  const CONTEXT_SIZE: nat := 88

  // ---- The firmware's buffer sizes ----

  /** What the firmware reports: whether its protocol is found, the status of the
      capability query, and the sizes it then gives. */
  datatype Capability = Capability(locate: Status, query: Status, maxCommandSize: u16, maxResponseSize: u16)

  /** `tcg2_get_max_buf`. */
  function GetMaxBuf(caps: Capability): u16 {
    if IsError(caps.query) then 0
    else if caps.maxCommandSize > caps.maxResponseSize then caps.maxCommandSize
    else caps.maxResponseSize
  }

  /** `sizeof_tcti_uefi_context`; 0 when the firmware gives no size. */
  function SizeofContext(caps: Capability): nat {
    if IsError(caps.locate) || GetMaxBuf(caps) == 0 then 0
    else GetMaxBuf(caps) + CONTEXT_SIZE
  }

  /** What is left of `size` bytes after the structure, in 64-bit arithmetic. */
  function Remainder(size: nat): nat {
    Wrap(size - CONTEXT_SIZE)
  }

  /** TSS2_TCTI_UEFI_CONTEXT. */
  class Context {
    var magic: nat
    var version: nat
    var state: State
    var size: nat
    const cmdBuf: array<byte>

    // The run since initialisation.
    ghost var initial: Tcti
    ghost var calls: seq<Call>
    ghost var actions: seq<Action>

    /** A block of `total` bytes, with whatever its memory happens to hold. */
    constructor Allocate(total: nat, magic: nat, version: nat, state: State, size: nat, contents: seq<byte>)
      requires CONTEXT_SIZE <= total && |contents| == total - CONTEXT_SIZE
      ensures fresh(cmdBuf) && cmdBuf[..] == contents
      ensures this.magic == magic && this.version == version && this.state == state && this.size == size
    {
      this.magic, this.version, this.state, this.size := magic, version, state, size;
      cmdBuf := new byte[|contents|](i requires 0 <= i < |contents| => contents[i]);
      initial, calls, actions := Tcti(FINAL, 0, []), [], [];
    }

    ghost function Model(): Tcti
      reads this, cmdBuf
    {
      Tcti(state, size, cmdBuf[..])
    }

    /** The context is what its run since initialisation has made of it. */
    ghost predicate Valid()
      reads this, cmdBuf
    {
      && initial.state == TRANSMIT && Wellformed(initial)
      && AllCallable(calls)
      && (Model(), actions) == Run(initial, calls)
    }

    /** Adds a call to the run, once its effects and actions are in place. */
    ghost method Record(c: Call)
      requires Callable(c) && AllCallable(calls) && initial.state == TRANSMIT && Wellformed(initial)
      requires var before := Run(initial, calls);
        var r := Step(before.0, c);
        Model() == r.tcti && actions == before.1 + r.actions
      modifies this`calls
      ensures Valid() && calls == old(calls) + [c]
    {
      hide Step, Run, Callable;
      RunSnoc(initial, calls, c);
      calls := calls + [c];
    }

    /** `tcg2_submit_command`, as far as the firmware sees it: an input block and
        the room for output, both sized in 32 bits. The firmware does not alter
        the input block. */
    ghost method SubmitCommand(inputSize: u32, outputSize: u32, status: Status)
      requires inputSize <= cmdBuf.Length
      modifies this`actions
      ensures actions == old(actions) + [Submit(cmdBuf[..inputSize], outputSize, status)]
    {
      actions := actions + [Submit(cmdBuf[..inputSize], outputSize, status)];
    }

    /** `tcti_uefi_context_cast`, as a test. */
    static predicate Cast(context: Context?)
      reads context
    {
      context != null && context.magic == TCTI_UEFI_MAGIC && context.version == TCTI_UEFI_VERSION
    }

    /** `tcti_uefi_transmit`. */
    static method Transmit(context: Context?, size: nat, command: Option<seq<byte>>) returns (rc: Rc)
      requires Cast(context) ==> context.Valid()
      requires Callable(Call.Transmit(size, command))
      modifies if context == null then {} else {context, context.cmdBuf}
      ensures var genuine := context != null && old(context.magic) == 0x3a2e16965be011f2 && old(context.version) == 2;
        && (rc == BAD_REFERENCE <==> context == null || command.None?)
        && (rc == BAD_CONTEXT <==> context != null && command.Some? && !genuine)
        && (rc == BAD_SEQUENCE <==> genuine && command.Some? && old(context.state) != TRANSMIT)
        && (rc == BAD_VALUE <==>
              genuine && command.Some? && old(context.state) == TRANSMIT && (size <= 10 || size > old(context.size)))
        && (rc == SUCCESS <==>
              genuine && command.Some? && old(context.state) == TRANSMIT && 10 < size <= old(context.size))
      ensures rc == SUCCESS ==>
        && context.state == RECEIVE && context.size == old(context.size)
        && size <= context.cmdBuf.Length
        && context.cmdBuf[..size] == command.value[..size]
        && context.cmdBuf[size..] == old(context.cmdBuf[..])[size..]
        && context.actions == old(context.actions) + [Accept(command.value[..size])]
      ensures rc != SUCCESS && context != null ==>
        context.Model() == old(context.Model()) && context.actions == old(context.actions)
      ensures context != null && !old(Cast(context)) ==> unchanged(context) && unchanged(context.cmdBuf)
      ensures old(Cast(context)) ==>
        var r := Step(old(context.Model()), Call.Transmit(size, command));
        && Cast(context) && context.Valid() && context.initial == old(context.initial)
        && context.Model() == r.tcti && rc == r.rc
        && context.calls == old(context.calls) + [Call.Transmit(size, command)]
        && context.actions == old(context.actions) + r.actions
    {
      hide Run;
      if context == null || command.None? {
        rc := BAD_REFERENCE;
      } else if !Cast(context) {
        rc := BAD_CONTEXT;
      } else if context.state != TRANSMIT {
        rc := BAD_SEQUENCE;
      } else if size > context.size || size <= TPM2_HEADER_SIZE {
        rc := BAD_VALUE;
      } else {
        context.CopyIn(command.value[..size]);
        context.actions := context.actions + [Accept(command.value[..size])];
        context.state := RECEIVE;
        rc := SUCCESS;
      }
      if Cast(context) {
        context.Record(Call.Transmit(size, command));
      }
    }

    /** `CopyMem` to the start of the command buffer. */
    method CopyIn(bytes: seq<byte>)
      requires |bytes| <= cmdBuf.Length
      modifies cmdBuf
      ensures cmdBuf[..] == Overlay(old(cmdBuf[..]), bytes)
    {
      for i := 0 to |bytes|
        invariant forall j :: 0 <= j < i ==> cmdBuf[j] == bytes[j]
        invariant forall j :: i <= j < cmdBuf.Length ==> cmdBuf[j] == old(cmdBuf[j])
      {
        cmdBuf[i] := bytes[i];
      }
    }

    /** `tcti_uefi_receive`. `*size` is written only by the size query that a null
        response makes. */
    static method Receive(context: Context?, size: Option<nat>, wantsResponse: bool, timeout: int, firmware: Firmware)
      returns (rc: Rc, size': Option<nat>)
      requires Cast(context) ==> context.Valid()
      modifies context
      ensures var genuine := context != null && old(context.magic) == 0x3a2e16965be011f2 && old(context.version) == 2;
        var called := context != null && size.Some?;
        var waits := genuine && size.Some? && timeout == -1 && old(context.state) == RECEIVE;
        var submits := waits && wantsResponse && firmware.locate < 0x8000_0000_0000_0000;
        && (rc == BAD_REFERENCE <==> !called)
        && (rc == NOT_IMPLEMENTED <==> called && timeout != -1)
        && (rc == BAD_CONTEXT <==> called && timeout == -1 && !genuine)
        && (rc == BAD_SEQUENCE <==> called && timeout == -1 && genuine && old(context.state) != RECEIVE)
        && (rc == SUCCESS <==> (waits && !wantsResponse) || (submits && firmware.submit == 0))
        && (rc == BAD_VALUE <==> submits && firmware.submit == 0x8000_0000_0000_0002)
        && (rc == INSUFFICIENT_BUFFER <==> submits && firmware.submit == 0x8000_0000_0000_0005)
        && (rc == IO_ERROR <==> submits && firmware.submit == 0x8000_0000_0000_0007)
        && (rc == GENERAL_FAILURE <==>
              && waits && wantsResponse
              && !(submits && firmware.submit == 0)
              && !(submits && firmware.submit == 0x8000_0000_0000_0002)
              && !(submits && firmware.submit == 0x8000_0000_0000_0005)
              && !(submits && firmware.submit == 0x8000_0000_0000_0007))
        && size' == (if waits && !wantsResponse then Some(old(context.size)) else size)
        && (context != null ==>
              && context.Model() == old(context.Model()).(state :=
                   if submits && firmware.submit == 0 then TRANSMIT else old(context.state))
              && context.actions == old(context.actions) + if !submits then [] else
                   [Submit(old(context.cmdBuf[..])[..old(context.size) % 0x1_0000_0000],
                           size.value % 0x1_0000_0000, firmware.submit)])
      ensures context != null && !old(Cast(context)) ==> unchanged(context)
      ensures old(Cast(context)) ==>
        var c := Call.Receive(size, wantsResponse, timeout, firmware);
        var r := Step(old(context.Model()), c);
        && Cast(context) && context.Valid() && context.initial == old(context.initial)
        && context.Model() == r.tcti && rc == r.rc
        && context.calls == old(context.calls) + [c]
        && context.actions == old(context.actions) + r.actions
    {
      hide Run;
      size' := size;
      if context == null || size.None? {
        rc := BAD_REFERENCE;
      } else if timeout != TIMEOUT_BLOCK {
        rc := NOT_IMPLEMENTED;
      } else if !Cast(context) {
        rc := BAD_CONTEXT;
      } else if context.state != RECEIVE {
        rc := BAD_SEQUENCE;
      } else if !wantsResponse {
        size' := Some(context.size);
        rc := SUCCESS;
      } else if IsError(firmware.locate) {
        rc := GENERAL_FAILURE;
      } else {
        context.SubmitCommand(Truncate32(context.size), Truncate32(size.value), firmware.submit);
        if firmware.submit == EFI_SUCCESS {
          context.state := TRANSMIT;
          rc := SUCCESS;
        } else if firmware.submit == EFI_INVALID_PARAMETER {
          rc := BAD_VALUE;
        } else if firmware.submit == EFI_BUFFER_TOO_SMALL {
          rc := INSUFFICIENT_BUFFER;
        } else if firmware.submit == EFI_DEVICE_ERROR {
          rc := IO_ERROR;
        } else if firmware.submit == EFI_ACCESS_DENIED {
          rc := GENERAL_FAILURE;
        } else {
          rc := GENERAL_FAILURE;
        }
      }
      if Cast(context) {
        context.Record(Call.Receive(size, wantsResponse, timeout, firmware));
      }
    }

    /** `tcti_uefi_finalize`. */
    static method FinalizeContext(context: Context?)
      requires Cast(context) ==> context.Valid()
      modifies context
      ensures context != null && !(old(context.magic) == 0x3a2e16965be011f2 && old(context.version) == 2) ==>
        unchanged(context)
      ensures context != null && old(context.magic) == 0x3a2e16965be011f2 && old(context.version) == 2 ==>
        && Cast(context) && context.Valid() && context.initial == old(context.initial)
        && context.Model() == old(context.Model()).(state := FINAL)
        && context.calls == old(context.calls) + [Finalize] && context.actions == old(context.actions)
    {
      hide Run;
      if Cast(context) {
        context.state := FINAL;
        context.Record(Finalize);
      }
    }

    /** `Tss2_Tcti_Uefi_Init`. A null context asks for the size of one; otherwise
        the block is made a context whose buffer is what is left of `*size`. The
        code does not check `*size`: what it makes is a context that works exactly
        when `*size` covers the structure and does not exceed the block. */
    static method Init(context: Context?, size: Option<nat>, caps: Capability) returns (rc: Rc, size': Option<nat>)
      requires size.Some? ==> size.value < ADDRESS_SPACE
      requires context != null ==> CONTEXT_SIZE + context.cmdBuf.Length < ADDRESS_SPACE
      modifies context
      ensures size.None? ==> rc == BAD_VALUE && size' == size && (context != null ==> unchanged(context))
      ensures size.Some? && context == null ==>
        && (rc == SUCCESS <==>
              && caps.locate < 0x8000_0000_0000_0000 && caps.query < 0x8000_0000_0000_0000
              && (caps.maxCommandSize > 0 || caps.maxResponseSize > 0))
        && (rc == SUCCESS ==>
              && size' == Some(SizeofContext(caps))
              && size'.value >= 88 + caps.maxCommandSize && size'.value >= 88 + caps.maxResponseSize
              && (size'.value == 88 + caps.maxCommandSize || size'.value == 88 + caps.maxResponseSize))
        && (rc != SUCCESS ==> rc == GENERAL_FAILURE && size' == Some(0))
      ensures size.Some? && context != null ==>
        && rc == SUCCESS && size' == size
        && context.magic == 0x3a2e16965be011f2 && context.version == 2
        && context.calls == [] && context.actions == []
        && context.Model() == context.initial
        && context.Model() == Tcti(TRANSMIT, Remainder(size.value), old(context.cmdBuf[..]))
        && (context.Valid() <==> CONTEXT_SIZE <= size.value <= CONTEXT_SIZE + context.cmdBuf.Length)
    {
      size' := size;
      if size.None? {
        return BAD_VALUE, size';
      } else if context == null {
        size' := Some(SizeofContext(caps));
        if size'.value == 0 {
          return GENERAL_FAILURE, size';
        }
        return SUCCESS, size';
      }
      context.magic := TCTI_UEFI_MAGIC;
      context.version := TCTI_UEFI_VERSION;
      context.state := TRANSMIT;
      context.size := Remainder(size.value);
      context.initial, context.calls, context.actions := context.Model(), [], [];
      return SUCCESS, size';
    }

    /** For a context in use: everything proved of runs holds of its own run. */
    lemma Guarantees() returns (gs: seq<Group>)
      requires Valid()
      ensures size == initial.size && cmdBuf.Length == |initial.buffer|
      ensures HoldsHistory(initial, Model(), Accepted(actions)) && AllHonest(initial, actions)
      ensures actions == Expand(gs) && Commands(gs) == Accepted(actions)
      ensures Grammatical(initial, gs) && MatchesState(state, gs)
      ensures |Answered(actions)| <= |Accepted(actions)| <= |Answered(actions)| + 1
      ensures state == RECEIVE ==> |Accepted(actions)| == |Answered(actions)| + 1
      ensures state == TRANSMIT ==> |Accepted(actions)| == |Answered(actions)|
      ensures forall k :: 0 <= k < |Answered(actions)| ==>
        ShowsHistory(initial, Accepted(actions)[..k + 1], Answered(actions)[k])
      ensures MatchCalls(Submissions(actions), SubmittingCalls(initial, calls))
      ensures state == FINAL <==> Finalize in calls
    {
      hide SubmittingCalls, Submissions, MatchCalls;
      SubmissionsMatchCalls(initial, calls);
      FinalIffFinalized(initial, calls);
      hide Run, HoldsHistory, AllHonest, ShowsHistory, Grammatical, MatchesState, Expand, Accepted, Answered;
      CommandBufferHistory(initial, calls);
      EachCommandAnsweredOnce(initial, calls);
      gs := TraceGrammar(initial, calls);
    }
  }

  /** The subtraction of the structure's size gives a capacity the block has if
      and only if the size covers the structure and does not exceed the block. */
  lemma RemainderFitsIff(size: nat, length: nat)
    requires size < ADDRESS_SPACE && CONTEXT_SIZE + length < ADDRESS_SPACE
    ensures Remainder(size) <= length <==> CONTEXT_SIZE <= size <= CONTEXT_SIZE + length
    ensures CONTEXT_SIZE <= size ==> Remainder(size) == size - CONTEXT_SIZE
    ensures size < CONTEXT_SIZE ==> Remainder(size) == ADDRESS_SPACE - (CONTEXT_SIZE - size)
  {
  }

  /** Initialised with a size of 0, or of one byte less than the structure, a block
      with an empty buffer becomes a context that reports nearly the whole address
      space as its capacity, and is not valid. */
  method UndersizedInit(caps: Capability) returns (zero: Context, short: Context)
    ensures Context.Cast(zero) && !zero.Valid() && zero.cmdBuf.Length == 0
    ensures zero.size == 0xFFFF_FFFF_FFFF_FFA8
    ensures Context.Cast(short) && !short.Valid() && short.cmdBuf.Length == 0
    ensures short.size == 0xFFFF_FFFF_FFFF_FFFF
  {
    var rc, size;
    zero := new Context.Allocate(CONTEXT_SIZE, 0, 0, FINAL, 0, []);
    rc, size := Context.Init(zero, Some(0), caps);
    short := new Context.Allocate(CONTEXT_SIZE, 0, 0, FINAL, 0, []);
    rc, size := Context.Init(short, Some(CONTEXT_SIZE - 1), caps);
    RemainderFitsIff(0, 0);
    RemainderFitsIff(CONTEXT_SIZE - 1, 0);
  }

  /** `tcti_uefi_init` of the examples: ask for the size, allocate, initialise.
      When the firmware reports a size and the allocation succeeds the buffer is
      exactly the larger of its two sizes; being 16-bit, these never give a context
      whose size is cut when it is submitted. */
  method QueryAllocateInit(caps: Capability, allocates: bool, garbage: seq<byte>)
    returns (rc: Rc, context: Context?)
    requires |garbage| == GetMaxBuf(caps)
    ensures rc == SUCCESS <==>
      && caps.locate < 0x8000_0000_0000_0000 && caps.query < 0x8000_0000_0000_0000
      && (caps.maxCommandSize > 0 || caps.maxResponseSize > 0)
      && allocates
    ensures rc == SUCCESS <==> context != null
    ensures rc != SUCCESS ==> rc == GENERAL_FAILURE
    ensures context != null ==>
      && fresh(context) && fresh(context.cmdBuf)
      && Context.Cast(context) && context.Valid() && context.calls == [] && context.state == TRANSMIT
      && context.size == context.cmdBuf.Length
      && context.size >= caps.maxCommandSize && context.size >= caps.maxResponseSize
      && (context.size == caps.maxCommandSize || context.size == caps.maxResponseSize)
      && Truncate32(context.size) == context.size
  {
    context := null;
    var size;
    rc, size := Context.Init(null, Some(0), caps);
    if rc != SUCCESS {
      return;
    }
    if !allocates {
      return GENERAL_FAILURE, null;
    }
    context := new Context.Allocate(size.value, 0, 0, FINAL, 0, garbage);
    rc, size := Context.Init(context, size, caps);
  }
}
