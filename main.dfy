/** The NTLISP_RUN request handler (device_control in NtLisp/main.cpp):
    validate the buffered request, run its text through the interpreter,
    export the captured error and output text into the caller's address
    space, write the reply record over the request, and reset the capture
    buffers for the next request. */
module NtLisp {
  import opened DriverIo
  import opened Lisp
  import opened Logger
  import opened UserMemory

  type NtStatus = s: int | 0 <= s < 0x1_0000_0000

  const StatusSuccess: NtStatus := 0
  const StatusUnsuccessful: NtStatus := 0xC000_0001

  /** The calls the handler makes into code outside this model, in order. */
  datatype Call =
    | LispRead(source: seq<Byte>)
    | LispEval(program: Value)
    | LispPrint(value: Value)
    | LispCollect
    | ZwAllocateVirtualMemory(size: nat)
    | IoCompleteRequest(status: NtStatus)

  // ---------------------------------------------------------------------
  // The request buffer
  // ---------------------------------------------------------------------

  /** The text lisp_read sees: the bytes up to the first NUL. */
  function CString(s: seq<Byte>): (r: seq<Byte>)
    ensures |r| <= |s| && r == s[..|r|]
    ensures forall i :: 0 <= i < |r| ==> r[i] != 0
    ensures |r| < |s| ==> s[|r|] == 0
  {
    if s == [] || s[0] == 0 then [] else [s[0]] + CString(s[1..])
  }

  /** METHOD_BUFFERED: the I/O manager passes one system buffer of
      max(input, output) bytes, and none at all when both lengths are 0. */
  ghost predicate BufferedLayout(hasBuffer: bool, buffer: seq<Byte>, inputLength: nat, outputLength: nat) {
    var size := if inputLength < outputLength then outputLength else inputLength;
    hasBuffer == (size > 0) && |buffer| == size
  }

  /** The test at main.cpp:35: a non-null, non-empty, NUL-terminated input. */
  predicate NullTerminated(hasBuffer: bool, buffer: seq<Byte>, inputLength: nat)
    requires inputLength <= |buffer|
  {
    hasBuffer && inputLength > 0 && buffer[inputLength - 1] == 0
  }

  /** The IRP of one device-control request, with the fields the handler uses. */
  class Irp {
    const ioControlCode: nat
    const inputBufferLength: nat
    const outputBufferLength: nat
    /** AssociatedIrp.SystemBuffer is not null. */
    const hasSystemBuffer: bool
    /** The system buffer: the request on entry, the reply record on exit. */
    var systemBuffer: seq<Byte>
    var information: nat
    var status: NtStatus

    constructor (code: nat, inputLength: nat, outputLength: nat, hasBuffer: bool, buffer: seq<Byte>)
      ensures ioControlCode == code && inputBufferLength == inputLength && outputBufferLength == outputLength
      ensures hasSystemBuffer == hasBuffer && systemBuffer == buffer
      ensures information == 0 && status == StatusSuccess
    {
      ioControlCode, inputBufferLength, outputBufferLength := code, inputLength, outputLength;
      hasSystemBuffer, systemBuffer := hasBuffer, buffer;
      information, status := 0, StatusSuccess;
    }

    ghost predicate Buffered()
      reads this
    {
      BufferedLayout(hasSystemBuffer, systemBuffer, inputBufferLength, outputBufferLength)
    }

    predicate HasTerminatedInput()
      reads this
      requires inputBufferLength <= |systemBuffer|
    {
      NullTerminated(hasSystemBuffer, systemBuffer, inputBufferLength)
    }

    /** The reply record as the client will read it (`ntlisp_result*` cast
        over the system buffer). */
    function Record(): Reply
      reads this
      requires |systemBuffer| >= ReplySize
    {
      DecodeReply(systemBuffer[..ReplySize])
    }

    /** `result->errors = value`: the first pointer field of the record,
        which overlays the first bytes of the request. */
    method WriteErrors(value: Address)
      requires |systemBuffer| >= ReplySize
      modifies this`systemBuffer
      ensures |systemBuffer| == |old(systemBuffer)|
      ensures systemBuffer[..ReplySize] == EncodeReply(old(Record()).(errors := value))
      ensures systemBuffer[ReplySize..] == old(systemBuffer)[ReplySize..]
    {
      ghost var r := Record();
      EncodeDecodeReply(systemBuffer[..ReplySize]);
      assert systemBuffer[PointerSize..ReplySize] == EncodePointer(r.outputs);
      systemBuffer := EncodePointer(value) + systemBuffer[PointerSize..];
      assert systemBuffer[..ReplySize] == EncodePointer(value) + EncodePointer(r.outputs);
    }

    /** `result->outputs = value`: the second pointer field of the record. */
    method WriteOutputs(value: Address)
      requires |systemBuffer| >= ReplySize
      modifies this`systemBuffer
      ensures |systemBuffer| == |old(systemBuffer)|
      ensures systemBuffer[..ReplySize] == EncodeReply(old(Record()).(outputs := value))
      ensures systemBuffer[ReplySize..] == old(systemBuffer)[ReplySize..]
    {
      ghost var r := Record();
      EncodeDecodeReply(systemBuffer[..ReplySize]);
      assert systemBuffer[..PointerSize] == EncodePointer(r.errors);
      systemBuffer := systemBuffer[..PointerSize] + EncodePointer(value) + systemBuffer[ReplySize..];
      assert systemBuffer[..ReplySize] == EncodePointer(r.errors) + EncodePointer(value);
    }

    /** main.cpp:65-66: both fields of the record become null. */
    method ZeroRecord()
      requires |systemBuffer| >= ReplySize
      modifies this`systemBuffer
      ensures |systemBuffer| == |old(systemBuffer)|
      ensures systemBuffer[..ReplySize] == EncodeReply(Reply(Null, Null))
      ensures systemBuffer[ReplySize..] == old(systemBuffer)[ReplySize..]
    {
      WriteErrors(Null);
      WriteOutputs(Null);
    }
  }

  // ---------------------------------------------------------------------
  // Running the interpreter
  // ---------------------------------------------------------------------

  /** What one run of the interpreter adds to the error and output capture
      buffers, and the interpreter calls it makes. */
  datatype RunResult = RunResult(errors: seq<Byte>, logs: seq<Byte>, calls: seq<Call>)

  /** ASCII text as bytes. */
  function Ascii(s: string): (b: seq<Byte>)
    requires forall i :: 0 <= i < |s| ==> s[i] as int < 0x100
    ensures |b| == |s|
  {
    seq(|s|, i requires 0 <= i < |s| => s[i] as int)
  }

  /** logger::error("<stage> error: %s\n", lisp_error_string(e)). */
  function ErrorMessage(stage: string, lisp: Interpreter, e: LispError): (m: seq<Byte>)
    requires forall i :: 0 <= i < |stage| ==> stage[i] as int < 0x100
    ensures |m| > |stage| && m[..|stage|] == Ascii(stage) && m[|m| - 1] == '\n' as int
  {
    var m := Ascii(stage) + Ascii(" error: ") + lisp.errorString(e) + Ascii("\n");
    assert m[..|stage|] == Ascii(stage);
    m
  }

  /** read, then eval only if read succeeded, then print and collect only if
      eval succeeded. Whatever a primitive logs lands in the capture buffers
      in the order it runs; a failing stage is followed by exactly one error
      message of the handler's own, and nothing runs after it. */
  function Run(lisp: Interpreter, source: seq<Byte>): (r: RunResult)
    ensures |r.calls| > 0 && r.calls[0] == LispRead(source)
    ensures var parsed := lisp.read(source);
      LispEval(parsed.value) in r.calls <==> parsed.error == LispErrorNone
    ensures var parsed := lisp.read(source); var evaluated := lisp.eval(parsed.value);
      LispCollect in r.calls <==> parsed.error == LispErrorNone && evaluated.error == LispErrorNone
    ensures var parsed := lisp.read(source);
      parsed.error != LispErrorNone ==>
        && r.calls == [LispRead(source)]
        && r.errors == parsed.errors + ErrorMessage("lisp_read", lisp, parsed.error)
        && r.logs == parsed.logs
    ensures var parsed := lisp.read(source); var evaluated := lisp.eval(parsed.value);
      parsed.error == LispErrorNone && evaluated.error != LispErrorNone ==>
        && r.calls == [LispRead(source), LispEval(parsed.value)]
        && r.errors == parsed.errors + evaluated.errors + ErrorMessage("lisp_eval", lisp, evaluated.error)
        && r.logs == parsed.logs + evaluated.logs
    ensures var parsed := lisp.read(source); var evaluated := lisp.eval(parsed.value);
      parsed.error == LispErrorNone && evaluated.error == LispErrorNone ==>
        && r.calls == [LispRead(source), LispEval(parsed.value), LispPrint(evaluated.value), LispCollect]
        && r.errors == parsed.errors + evaluated.errors
        && r.logs == parsed.logs + evaluated.logs + lisp.render(evaluated.value)
  {
    var parsed := lisp.read(source);
    if parsed.error != LispErrorNone then
      RunResult(parsed.errors + ErrorMessage("lisp_read", lisp, parsed.error), parsed.logs, [LispRead(source)])
    else
      var evaluated := lisp.eval(parsed.value);
      if evaluated.error != LispErrorNone then
        RunResult(parsed.errors + evaluated.errors + ErrorMessage("lisp_eval", lisp, evaluated.error),
                  parsed.logs + evaluated.logs,
                  [LispRead(source), LispEval(parsed.value)])
      else
        RunResult(parsed.errors + evaluated.errors, parsed.logs + evaluated.logs + lisp.render(evaluated.value),
                  [LispRead(source), LispEval(parsed.value), LispPrint(evaluated.value), LispCollect])
  }

  /** The handler's own messages go to the error buffer only: when neither
      primitive logs anything, a run leaves error text or output text, never
      both, and it leaves error text exactly when read or eval failed. */
  lemma QuietRunSeparatesText(lisp: Interpreter, source: seq<Byte>)
    requires lisp.read(source).errors == [] && lisp.read(source).logs == []
    requires lisp.eval(lisp.read(source).value).errors == [] && lisp.eval(lisp.read(source).value).logs == []
    ensures var r := Run(lisp, source);
      r.errors == [] || r.logs == []
    ensures var r := Run(lisp, source);
      r.errors != [] <==> lisp.read(source).error != LispErrorNone || lisp.eval(lisp.read(source).value).error != LispErrorNone
  {
  }

  // ---------------------------------------------------------------------
  // Exporting capture buffers into the caller
  // ---------------------------------------------------------------------

  /** One reply slot: null, or a region that did not exist before, holds
      exactly |text| bytes, and has the text copied into it up to a possible
      fault. */
  ghost predicate Exported(before: map<Address, seq<Byte>>, after: map<Address, seq<Byte>>,
                           slot: Address, text: seq<Byte>)
  {
    slot == Null || (slot !in before && slot in after && PartialCopy(after[slot], text))
  }

  function NonNullSlots(r: Reply): (slots: set<Address>)
    ensures Null !in slots
    ensures r.errors in slots <==> r.errors != Null
    ensures r.outputs in slots <==> r.outputs != Null
  {
    (if r.errors != Null then {r.errors} else {}) + (if r.outputs != Null then {r.outputs} else {})
  }

  /** The reply after the export step: a slot is non-null only for a
      non-empty buffer, each non-null slot is a new region of its own holding
      that buffer's text, and no earlier region changed. */
  ghost predicate ReplyExported(before: map<Address, seq<Byte>>, after: map<Address, seq<Byte>>,
                                reply: Reply, errText: seq<Byte>, logText: seq<Byte>)
  {
    && (errText == [] ==> reply.errors == Null)
    && (logText == [] ==> reply.outputs == Null)
    && Exported(before, after, reply.errors, errText)
    && Exported(before, after, reply.outputs, logText)
    && (reply.errors != Null && reply.outputs != Null ==> reply.errors != reply.outputs)
    && after.Keys == before.Keys + NonNullSlots(reply)
    && (forall a :: a in before ==> after[a] == before[a])
  }

  /** Two exports in a row, the second into the address space the first
      left behind, give a reply of the shape ReplyExported describes. */
  lemma ExportsCompose(before: map<Address, seq<Byte>>, middle: map<Address, seq<Byte>>,
                       after: map<Address, seq<Byte>>, reply: Reply, errText: seq<Byte>, logText: seq<Byte>)
    requires Null !in before
    requires errText == [] ==> reply.errors == Null
    requires logText == [] ==> reply.outputs == Null
    requires Exported(before, middle, reply.errors, errText)
    requires middle == if reply.errors == Null then before else before[reply.errors := middle[reply.errors]]
    requires Exported(middle, after, reply.outputs, logText)
    requires after == if reply.outputs == Null then middle else middle[reply.outputs := after[reply.outputs]]
    ensures ReplyExported(before, after, reply, errText, logText)
  {
  }

  /** The allocations the export step asks for: one per non-empty buffer,
      errors first, each of exactly that buffer's length. */
  function ExportCalls(errText: seq<Byte>, logText: seq<Byte>): (calls: seq<Call>)
    ensures |calls| == (if errText != [] then 1 else 0) + (if logText != [] then 1 else 0)
  {
    (if errText != [] then [ZwAllocateVirtualMemory(|errText|)] else []) +
    (if logText != [] then [ZwAllocateVirtualMemory(|logText|)] else [])
  }

  // ---------------------------------------------------------------------
  // The driver
  // ---------------------------------------------------------------------

  class Driver {
    /** logger::errors and logger::logs. */
    const errors: StringBuffer
    const logs: StringBuffer
    /** The foreign calls made so far. */
    ghost var trace: seq<Call>

    ghost predicate Valid()
      reads this
    {
      errors != logs
    }

    /** Between requests both capture buffers are empty. */
    ghost predicate Idle()
      reads this, errors, logs
    {
      errors.text == [] && logs.text == []
    }

    constructor ()
      ensures Valid() && Idle() && trace == []
      ensures fresh(errors) && fresh(logs)
    {
      errors := new StringBuffer();
      logs := new StringBuffer();
      trace := [];
    }

    /** What a primitive sent to the logger while it ran lands in the two
        capture buffers. */
    method Captured(outcome: Outcome)
      requires Valid()
      modifies errors, logs
      ensures errors.text == old(errors.text) + outcome.errors
      ensures logs.text == old(logs.text) + outcome.logs
    {
      errors.Append(outcome.errors);
      logs.Append(outcome.logs);
    }

    /** main.cpp:39-61: drive the interpreter over the request text. */
    method RunProgram(source: seq<Byte>, lisp: Interpreter)
      requires Valid()
      modifies this`trace, errors, logs
      ensures errors.text == old(errors.text) + Run(lisp, source).errors
      ensures logs.text == old(logs.text) + Run(lisp, source).logs
      ensures trace == old(trace) + Run(lisp, source).calls
    {
      var parsed := lisp.read(source);
      ghost var calls := [LispRead(source)];
      Captured(parsed);
      if parsed.error == LispErrorNone {
        var evaluated := lisp.eval(parsed.value);
        calls := calls + [LispEval(parsed.value)];
        Captured(evaluated);
        if evaluated.error == LispErrorNone {
          logs.Append(lisp.render(evaluated.value));
          calls := calls + [LispPrint(evaluated.value), LispCollect];
        } else {
          errors.Append(ErrorMessage("lisp_eval", lisp, evaluated.error));
        }
      } else {
        errors.Append(ErrorMessage("lisp_read", lisp, parsed.error));
      }
      trace := trace + calls;
    }

    /** export_buffer (main.cpp:70-96): ask for a region of exactly the
        buffer's length, copy into it only if one was granted, reset the
        buffer in every case, and return the region or null. */
    method ExportBuffer(buf: StringBuffer, process: Process) returns (region: Address)
      requires process.Valid()
      modifies this`trace, buf, process
      ensures process.Valid()
      ensures buf.text == []
      ensures trace == old(trace) + [ZwAllocateVirtualMemory(|old(buf.text)|)]
      ensures Exported(old(process.regions), process.regions, region, old(buf.text))
      ensures region == Null ==> process.regions == old(process.regions)
      ensures region != Null ==> process.regions == old(process.regions)[region := process.regions[region]]
    {
      var size := |buf.text|;
      region := process.Allocate(size);
      trace := trace + [ZwAllocateVirtualMemory(size)];
      if region != Null {
        ghost var copied := process.GuardedCopy(region, buf.text);
        assert Zeros(size)[copied..] == Zeros(size - copied);
        assert PartialCopy(process.regions[region], old(buf.text));
      }
      buf.Reset();
    }

    /** main.cpp:102-105: export each non-empty capture buffer and store the
        region in its slot of the (already zeroed) reply record. */
    method ExportSlots(irp: Irp, process: Process) returns (ghost reply: Reply)
      requires Valid() && process.Valid()
      requires |irp.systemBuffer| >= ReplySize
      requires irp.Record() == Reply(Null, Null)
      modifies this`trace, errors, logs, process, irp`systemBuffer
      ensures process.Valid()
      ensures errors.text == [] && logs.text == []
      ensures |irp.systemBuffer| == |old(irp.systemBuffer)|
      ensures irp.systemBuffer[..ReplySize] == EncodeReply(reply) && irp.Record() == reply
      ensures irp.systemBuffer[ReplySize..] == old(irp.systemBuffer)[ReplySize..]
      ensures ReplyExported(old(process.regions), process.regions, reply, old(errors.text), old(logs.text))
      ensures trace == old(trace) + ExportCalls(old(errors.text), old(logs.text))
    {
      var errorsRegion, outputsRegion := Null, Null;
      ghost var before := process.regions;
      EncodeDecodeReply(irp.systemBuffer[..ReplySize]);
      if |errors.text| > 0 {
        errorsRegion := ExportBuffer(errors, process);
        irp.WriteErrors(errorsRegion);
      }
      ghost var middle := process.regions;
      if |logs.text| > 0 {
        outputsRegion := ExportBuffer(logs, process);
        irp.WriteOutputs(outputsRegion);
      }
      reply := Reply(errorsRegion, outputsRegion);
      ExportsCompose(before, middle, process.regions, reply, old(errors.text), old(logs.text));
    }

    /** main.cpp:63-112, as written: null both fields of the record, export
        the capture buffers only if the output buffer holds a whole record
        (and then report the record's size), and reset both buffers. */
    method MarshalReply(irp: Irp, process: Process)
      requires Valid() && process.Valid()
      requires |irp.systemBuffer| >= ReplySize
      modifies this`trace, errors, logs, process, irp`systemBuffer, irp`information
      ensures process.Valid()
      ensures errors.text == [] && logs.text == []
      ensures |irp.systemBuffer| == |old(irp.systemBuffer)|
      ensures irp.systemBuffer[ReplySize..] == old(irp.systemBuffer)[ReplySize..]
      ensures irp.outputBufferLength >= ReplySize ==>
        && irp.information == ReplySize
        && ReplyExported(old(process.regions), process.regions, irp.Record(), old(errors.text), old(logs.text))
        && trace == old(trace) + ExportCalls(old(errors.text), old(logs.text))
      ensures irp.outputBufferLength < ReplySize ==>
        && irp.information == old(irp.information)
        && irp.Record() == Reply(Null, Null)
        && process.regions == old(process.regions)
        && trace == old(trace)
    {
      irp.ZeroRecord();
      if irp.outputBufferLength >= ReplySize {
        ghost var reply := ExportSlots(irp, process);
        irp.information := ReplySize;
      } else {
        EncodeDecodeReply(irp.systemBuffer[..ReplySize]);
      }
      errors.Reset();
      logs.Reset();
    }

    /** MarshalReply with the record written only inside the capacity check:
        an output buffer too small for the record leaves the system buffer
        as it was. */
    method MarshalReplyChecked(irp: Irp, process: Process)
      requires Valid() && process.Valid()
      requires irp.outputBufferLength <= |irp.systemBuffer|
      modifies this`trace, errors, logs, process, irp`systemBuffer, irp`information
      ensures process.Valid()
      ensures errors.text == [] && logs.text == []
      ensures |irp.systemBuffer| == |old(irp.systemBuffer)|
      ensures irp.outputBufferLength >= ReplySize ==>
        && irp.information == ReplySize
        && irp.systemBuffer[ReplySize..] == old(irp.systemBuffer)[ReplySize..]
        && ReplyExported(old(process.regions), process.regions, irp.Record(), old(errors.text), old(logs.text))
        && trace == old(trace) + ExportCalls(old(errors.text), old(logs.text))
      ensures irp.outputBufferLength < ReplySize ==>
        && irp.information == old(irp.information)
        && irp.systemBuffer == old(irp.systemBuffer)
        && process.regions == old(process.regions)
        && trace == old(trace)
    {
      if irp.outputBufferLength >= ReplySize {
        irp.ZeroRecord();
        ghost var reply := ExportSlots(irp, process);
        irp.information := ReplySize;
      }
      errors.Reset();
      logs.Reset();
    }

    /** What serving a valid request leaves behind, as written: the
        interpreter ran on the request's text as it arrived, both capture
        buffers are empty, the record's fields are null unless the output
        buffer holds a whole record, and only then were the buffers
        exported and the record's size reported. */
    twostate predicate Executed(irp: Irp, process: Process, lisp: Interpreter, tail: seq<Call>)
      reads this, errors, logs, irp, process
    {
      && old(irp.inputBufferLength <= |irp.systemBuffer|)
      && |irp.systemBuffer| == old(|irp.systemBuffer|) >= ReplySize
      && var run := Run(lisp, CString(old(irp.systemBuffer[..irp.inputBufferLength])));
         var errText := old(errors.text) + run.errors;
         var logText := old(logs.text) + run.logs;
         var fits := irp.outputBufferLength >= ReplySize;
         && errors.text == [] && logs.text == []
         && irp.systemBuffer[ReplySize..] == old(irp.systemBuffer[ReplySize..])
         && irp.information == (if fits then ReplySize else 0)
         && (fits ==> ReplyExported(old(process.regions), process.regions, irp.Record(), errText, logText))
         && (!fits ==> irp.Record() == Reply(Null, Null) && process.regions == old(process.regions))
         && trace == old(trace) + run.calls + (if fits then ExportCalls(errText, logText) else []) + tail
    }

    /** The same, with the record left untouched when the output buffer is
        too small for it. */
    twostate predicate ExecutedChecked(irp: Irp, process: Process, lisp: Interpreter, tail: seq<Call>)
      reads this, errors, logs, irp, process
    {
      && old(irp.inputBufferLength <= |irp.systemBuffer|)
      && |irp.systemBuffer| == old(|irp.systemBuffer|)
      && var run := Run(lisp, CString(old(irp.systemBuffer[..irp.inputBufferLength])));
         var errText := old(errors.text) + run.errors;
         var logText := old(logs.text) + run.logs;
         && errors.text == [] && logs.text == []
         && (irp.outputBufferLength < ReplySize ==>
               && irp.information == 0
               && irp.systemBuffer == old(irp.systemBuffer)
               && process.regions == old(process.regions)
               && trace == old(trace) + run.calls + tail)
         && (irp.outputBufferLength >= ReplySize ==>
               && |irp.systemBuffer| >= ReplySize
               && irp.information == ReplySize
               && irp.systemBuffer[ReplySize..] == old(irp.systemBuffer[ReplySize..])
               && ReplyExported(old(process.regions), process.regions, irp.Record(), errText, logText)
               && trace == old(trace) + run.calls + ExportCalls(errText, logText) + tail)
    }

    /** main.cpp:31-112 for a valid request, as written. */
    method Execute(irp: Irp, process: Process, lisp: Interpreter)
      requires Valid() && process.Valid()
      requires irp.inputBufferLength <= |irp.systemBuffer|
      requires |irp.systemBuffer| >= ReplySize
      requires irp.information == 0
      modifies this`trace, errors, logs, process, irp`systemBuffer, irp`information
      ensures process.Valid()
      ensures Executed(irp, process, lisp, [])
    {
      RunProgram(CString(irp.systemBuffer[..irp.inputBufferLength]), lisp);
      MarshalReply(irp, process);
    }

    /** main.cpp:31-112 for a valid request, with the record write moved
        inside the capacity check. */
    method ExecuteChecked(irp: Irp, process: Process, lisp: Interpreter)
      requires Valid() && process.Valid()
      requires irp.information == 0
      requires irp.inputBufferLength <= |irp.systemBuffer|
      requires irp.outputBufferLength <= |irp.systemBuffer|
      modifies this`trace, errors, logs, process, irp`systemBuffer, irp`information
      ensures process.Valid()
      ensures ExecutedChecked(irp, process, lisp, [])
    {
      RunProgram(CString(irp.systemBuffer[..irp.inputBufferLength]), lisp);
      MarshalReplyChecked(irp, process);
    }

    /** device_control (main.cpp:16-129), as written. The reply record is
        zeroed before the capacity check, so the precondition that the
        system buffer holds a whole record is needed for every valid
        request; nothing in the handler establishes it. */
    method DeviceControl(irp: Irp, process: Process, lisp: Interpreter) returns (status: NtStatus)
      requires Valid() && process.Valid()
      requires irp.ioControlCode == NtlispRun ==> irp.Buffered()
      requires irp.ioControlCode == NtlispRun && irp.HasTerminatedInput() ==> |irp.systemBuffer| >= ReplySize
      modifies this`trace, errors, logs, process, irp`systemBuffer, irp`information, irp`status
      ensures process.Valid()
      ensures irp.status == status
      ensures status == if irp.ioControlCode == NtlispRun then StatusSuccess else StatusUnsuccessful
      ensures |irp.systemBuffer| == |old(irp.systemBuffer)|
      ensures old(Idle()) ==> Idle()
      // An unrecognized code: fail, touching nothing but the status.
      ensures irp.ioControlCode != NtlispRun ==>
        && irp.information == old(irp.information)
        && irp.systemBuffer == old(irp.systemBuffer)
        && errors.text == old(errors.text) && logs.text == old(logs.text)
        && process.regions == old(process.regions)
        && trace == old(trace) + [IoCompleteRequest(StatusUnsuccessful)]
      // No valid input: succeed with nothing to report, run nothing.
      ensures irp.ioControlCode == NtlispRun && !old(irp.HasTerminatedInput()) ==>
        && irp.information == 0
        && irp.systemBuffer == old(irp.systemBuffer)
        && errors.text == old(errors.text) && logs.text == old(logs.text)
        && process.regions == old(process.regions)
        && trace == old(trace) + [IoCompleteRequest(StatusSuccess)]
      // Valid input: run it, reply, and leave both capture buffers empty.
      ensures irp.ioControlCode == NtlispRun && old(irp.HasTerminatedInput()) ==>
        Executed(irp, process, lisp, [IoCompleteRequest(StatusSuccess)])
    {
      if irp.ioControlCode == NtlispRun {
        irp.information := 0;
        if irp.HasTerminatedInput() {
          Execute(irp, process, lisp);
        }
        irp.status := StatusSuccess;
        trace := trace + [IoCompleteRequest(StatusSuccess)];
        status := StatusSuccess;
      } else {
        irp.status := StatusUnsuccessful;
        trace := trace + [IoCompleteRequest(StatusUnsuccessful)];
        status := StatusUnsuccessful;
      }
    }

    /** device_control with the record written only once the output buffer
        is known to hold it. Under METHOD_BUFFERED the system buffer is then
        at least as long as the record, so no precondition on its length is
        needed. */
    method DeviceControlChecked(irp: Irp, process: Process, lisp: Interpreter) returns (status: NtStatus)
      requires Valid() && process.Valid()
      requires irp.ioControlCode == NtlispRun ==> irp.Buffered()
      modifies this`trace, errors, logs, process, irp`systemBuffer, irp`information, irp`status
      ensures process.Valid()
      ensures irp.status == status
      ensures status == if irp.ioControlCode == NtlispRun then StatusSuccess else StatusUnsuccessful
      ensures |irp.systemBuffer| == |old(irp.systemBuffer)|
      ensures old(Idle()) ==> Idle()
      // An unrecognized code: fail, touching nothing but the status.
      ensures irp.ioControlCode != NtlispRun ==>
        && irp.information == old(irp.information)
        && irp.systemBuffer == old(irp.systemBuffer)
        && errors.text == old(errors.text) && logs.text == old(logs.text)
        && process.regions == old(process.regions)
        && trace == old(trace) + [IoCompleteRequest(StatusUnsuccessful)]
      // No valid input: succeed with nothing to report, run nothing.
      ensures irp.ioControlCode == NtlispRun && !old(irp.HasTerminatedInput()) ==>
        && irp.information == 0
        && irp.systemBuffer == old(irp.systemBuffer)
        && errors.text == old(errors.text) && logs.text == old(logs.text)
        && process.regions == old(process.regions)
        && trace == old(trace) + [IoCompleteRequest(StatusSuccess)]
      // Valid input: run it, reply, and leave both capture buffers empty.
      ensures irp.ioControlCode == NtlispRun && old(irp.HasTerminatedInput()) ==>
        ExecutedChecked(irp, process, lisp, [IoCompleteRequest(StatusSuccess)])
    {
      if irp.ioControlCode == NtlispRun {
        irp.information := 0;
        if irp.HasTerminatedInput() {
          ExecuteChecked(irp, process, lisp);
        }
        irp.status := StatusSuccess;
        trace := trace + [IoCompleteRequest(StatusSuccess)];
        status := StatusSuccess;
      } else {
        irp.status := StatusUnsuccessful;
        trace := trace + [IoCompleteRequest(StatusUnsuccessful)];
        status := StatusUnsuccessful;
      }
    }
  }

  /** A request the I/O manager can deliver to device_control whose reply
      write at main.cpp:65-66 falls outside the system buffer: a one-byte
      input holding just the terminator and no output buffer. It passes the
      input check, yet the system buffer is one byte long. */
  lemma ShortRequestOverrunsReply()
    ensures var buffer: seq<Byte> := [0];
      && BufferedLayout(true, buffer, 1, 0)
      && NullTerminated(true, buffer, 1)
      && |buffer| < ReplySize
  {
  }

  /** One NTLISP_RUN request with a valid input and room for the reply, on
      an idle driver: it succeeds, reports the record, exports exactly this
      run's text, and leaves the driver idle again. */
  method ServeIdle(driver: Driver, process: Process, input: seq<Byte>, lisp: Interpreter) returns (irp: Irp)
    requires driver.Valid() && process.Valid() && driver.Idle()
    requires |input| >= ReplySize && input[|input| - 1] == 0
    modifies driver`trace, driver.errors, driver.logs, process
    ensures driver.Valid() && process.Valid() && driver.Idle()
    ensures irp.status == StatusSuccess && irp.information == ReplySize
    ensures |irp.systemBuffer| >= ReplySize
    ensures var run := Run(lisp, CString(input));
      ReplyExported(old(process.regions), process.regions, irp.Record(), run.errors, run.logs)
  {
    irp := new Irp(NtlispRun, |input|, ReplySize, true, input);
    assert irp.Buffered() && irp.HasTerminatedInput();
    var status := driver.DeviceControl(irp, process, lisp);
    assert input[..|input|] == input;
    var run := Run(lisp, CString(input));
    assert [] + run.errors == run.errors && [] + run.logs == run.logs;
  }

  /** Two requests in a row on a fresh driver: both succeed, the second
      reply carries only the text the second run produced, and the driver
      is idle again. */
  method TwoRequests(first: seq<Byte>, second: seq<Byte>, lisp1: Interpreter, lisp2: Interpreter)
    requires |first| >= ReplySize && first[|first| - 1] == 0
    requires |second| >= ReplySize && second[|second| - 1] == 0
  {
    var driver := new Driver();
    var process := new Process();
    var irp1 := ServeIdle(driver, process, first, lisp1);
    ghost var before := process.regions;
    var irp2 := ServeIdle(driver, process, second, lisp2);
    assert irp1.status == irp2.status == StatusSuccess && irp2.information == ReplySize;
    var run := Run(lisp2, CString(second));
    var reply := irp2.Record();
    assert Exported(before, process.regions, reply.errors, run.errors);
    assert Exported(before, process.regions, reply.outputs, run.logs);
    assert driver.Idle();
  }
}
