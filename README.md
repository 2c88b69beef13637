# NtLisp request handler, modelled in Dafny

NtLisp is a Windows kernel driver that hosts a Lisp interpreter. User mode
sends it one kind of request, the `NTLISP_RUN` device-control code, with a
NUL-terminated program in a buffered IRP. The handler `device_control` does
five things. It reads and evaluates the program. It collects the interpreter's
error text and output text in two capture buffers (`logger::errors`,
`logger::logs`). It copies each non-empty buffer into a fresh region
committed in the calling process. It writes the two region addresses as an
`ntlisp_result` record over the start of the request buffer. Finally it
resets both buffers.

The model has five modules, one per piece of the system:

- `DriverIo` (`driver_io.dfy`) covers `driver_io.hpp`. It holds the
  `CTL_CODE` packing, the `NTLISP_RUN` constant and the 16-byte reply record
  with its little-endian pointer encoding. Round trips are proved in both
  directions.
- `Lisp` (`lisp.dfy`) is the interface of `lisp.h`. An `Interpreter` value
  fixes what `lisp_read`, `lisp_eval`, `lisp_print` and `lisp_error_string`
  answer for one request. This includes the text `lisp_read` and `lisp_eval`
  themselves send to the logger, since user code may print or report
  errors before it fails.
- `Logger` (`logger.dfy`) is the capture buffer: a byte string with
  `Append` and `Reset`.
- `UserMemory` (`user_memory.dfy`) is the caller's address space.
  `ZwAllocateVirtualMemory` either fails or commits a fresh zero-filled
  region. The fault-guarded `memcpy` stores some prefix of the bytes.
  Both outcomes are chosen nondeterministically inside the methods.
- `NtLisp` (`main.dfy`) covers `device_control` and its `export_buffer`
  lambda. They are imperative methods over an `Irp` object (system buffer,
  `Information`, status) and a `Driver` object (the two capture buffers).
  A ghost trace records these calls into outside code: `lisp_read`,
  `lisp_eval`, `lisp_print`, `lisp_collect`, `ZwAllocateVirtualMemory` and
  `IoCompleteRequest`. This lets the contracts say which of them happen, in
  what order, and which do not happen at all. `lisp_error_string`,
  `lisp_make_null`, `logger::error` and the guarded `memcpy` are not in the
  trace. Their effects show up in the buffers and regions instead.

The reply record overlays the request in the system buffer. This is
modelled concretely: the record's two pointers are stored as bytes
0..15 of `Irp.systemBuffer`. The contracts run the interpreter on
`CString(old(systemBuffer)[..inputBufferLength])`, which is the request as it
arrived. That is how the model shows the record is written only after
`lisp_read` has consumed the input.

Under `METHOD_BUFFERED` the system buffer is only max(input, output) bytes
long. The record is written for every valid request, before the output
capacity is checked. `DeviceControl` therefore carries the explicit
precondition that the system buffer holds a whole record. Nothing in the
handler establishes it (see Findings).

The code at main.cpp:65-66 nulls the record for every valid request, even
when the output buffer is too small to receive it. The capture buffers are
reset only inside the input check at main.cpp:35 (lines 111-112). So an
unrecognised or invalid request leaves them as they were, and
`DeviceControl` proves that empty buffers stay empty
(`old(Idle()) ==> Idle()`).

## Model

| member | source | states |
|---|---|---|
| `DriverIo.CtlCode` | NtLisp/driver_io.hpp:4 | packs device type, function, transfer method and access into a 32-bit code from which each field reads back unchanged |
| `DriverIo.NtlispRunIsBuffered` | NtLisp/driver_io.hpp:4 | NTLISP_RUN is CTL_CODE(0x13, 0x37, METHOD_BUFFERED, FILE_ANY_ACCESS), so its transfer method is buffered |
| `DriverIo.DecodeLe` | NtLisp/driver_io.hpp:10-11 | the value of an n-byte little-endian string is below 256^n |
| `DriverIo.EncodeLe` | NtLisp/driver_io.hpp:10-11 | the n-byte little-endian form of a value has n bytes and decodes back to the value |
| `DriverIo.EncodeDecodeLe` | NtLisp/driver_io.hpp:10-11 | every byte string is the encoding of its own value, the other direction of the round trip |
| `DriverIo.EncodePointer` | NtLisp/driver_io.hpp:10-11 | a pointer field is 8 bytes and decodes back to the address |
| `DriverIo.EncodeReply` | NtLisp/driver_io.hpp:8-12 | the record is 16 bytes, `errors` then `outputs`, and the client decodes exactly the two addresses stored |
| `DriverIo.EncodeDecodeReply` | NtLisp/driver_io.hpp:8-12 | every 16-byte string is the encoding of the record it decodes to |
| `Logger.StringBuffer.Append` | NtLisp/main.cpp:48-60 | whatever is logged during a run (a primitive's own text, an error message, the printed value) is added at the end of the captured text |
| `Logger.StringBuffer.Reset` | NtLisp/main.cpp:111-112 | the captured text becomes empty |
| `UserMemory.Process.Allocate` | NtLisp/main.cpp:74-76 | either the allocation fails, leaving the pointer null and the address space unchanged, or a new zero-filled region of exactly the requested size appears at an address not in use |
| `UserMemory.Process.GuardedCopy` | NtLisp/main.cpp:80-90 | the copy may stop at any byte with the fault swallowed; the region then holds a prefix of the source over its old contents, and no other region changes |
| `NtLisp.CString` | NtLisp/main.cpp:40 | lisp_read sees the longest NUL-free prefix of the buffer, and the byte after it, when there is one, is NUL |
| `NtLisp.Run` | NtLisp/main.cpp:39-61 | read comes first. Eval is called iff read reported no error. Print and collect are called iff eval also reported none. The text each primitive logs lands in the buffers in call order. A failing stage is followed by exactly one message of the handler's own, `lisp_read error: …` or `lisp_eval error: …`, and nothing runs after it. On success the printed value follows whatever the primitives logged |
| `NtLisp.QuietRunSeparatesText` | NtLisp/main.cpp:39-61 | the handler itself writes only to the error buffer on failure and only to the output buffer on success. So when read and eval log nothing of their own, a run yields error text or output text, never both, and error text exactly when a stage failed |
| `NtLisp.ErrorMessage` | NtLisp/main.cpp:55-60 | the message `logger::error` formats: the stage name, ` error: `, `lisp_error_string`'s text and a newline |
| `NtLisp.BufferedLayout` | NtLisp/main.cpp:21-27 | the METHOD_BUFFERED layout the I/O manager delivers: a single system buffer of max(input, output) bytes, null exactly when both lengths are 0 |
| `NtLisp.NullTerminated` | NtLisp/main.cpp:35 | the input check: the buffer is non-null, the input length is non-zero, and the last input byte is NUL |
| `NtLisp.Irp.HasTerminatedInput` | NtLisp/main.cpp:35 | the same input check, applied to the request's own buffer and input length |
| `NtLisp.Irp.Record` | NtLisp/main.cpp:24 | the `ntlisp_result*` view of the system buffer: the record the client decodes from its first 16 bytes |
| `NtLisp.Irp.WriteErrors` | NtLisp/main.cpp:65 | storing `result->errors` changes only bytes 0..7 of the system buffer, and the client then reads the new address in that field and the old one in the other |
| `NtLisp.Irp.WriteOutputs` | NtLisp/main.cpp:66 | storing `result->outputs` changes only bytes 8..15, with the same read-back guarantee |
| `NtLisp.Irp.ZeroRecord` | NtLisp/main.cpp:65-66 | both record fields read as null and the rest of the system buffer is unchanged |
| `NtLisp.ExportsCompose` | NtLisp/main.cpp:102-105 | two exports in a row yield a reply whose non-null slots are distinct new regions, each holding its own buffer's text, with every earlier region unchanged |
| `NtLisp.Driver.Captured` | NtLisp/main.cpp:40-44 | what `lisp_read` or `lisp_eval` logged while it ran is appended to `logger::errors` and `logger::logs` respectively |
| `NtLisp.Driver.RunProgram` | NtLisp/main.cpp:39-61 | the capture buffers grow by exactly the text `Run` produces, and the trace by exactly its interpreter calls |
| `NtLisp.Driver.ExportBuffer` | NtLisp/main.cpp:70-96 | requests exactly the buffer's length. It copies only if a region was granted and returns that region or null. The buffer is reset in every case, also after a faulting copy |
| `NtLisp.Driver.ExportSlots` | NtLisp/main.cpp:102-105 | only non-empty buffers are exported, errors first. Each slot holds its export's result or stays null. Both buffers end empty |
| `NtLisp.Driver.MarshalReply` | NtLisp/main.cpp:63-112 | the record is nulled. If the output buffer holds a record, the buffers are exported and `Information` becomes 16; otherwise nothing is allocated and both slots stay null. Both buffers end empty |
| `NtLisp.Driver.MarshalReplyChecked` | NtLisp/main.cpp:98-112 | like `MarshalReply`, but an output buffer too small for the record leaves the system buffer untouched |
| `NtLisp.Driver.Execute` | NtLisp/main.cpp:35-113 | for a valid request: the interpreter runs on the request as it arrived, both buffers end empty, and slots are non-null only through exports, which happen only when the output buffer holds a record. `Information` is 16 exactly in that case and 0 otherwise |
| `NtLisp.Driver.ExecuteChecked` | NtLisp/main.cpp:35-113 | the same outcome with the corrected record write |
| `NtLisp.Driver.DeviceControl` | NtLisp/main.cpp:16-129 | an unrecognised code returns STATUS_UNSUCCESSFUL and changes nothing but the status. NTLISP_RUN always returns and records STATUS_SUCCESS. An input that is null, empty or not NUL-terminated runs nothing and leaves `Information` 0. Otherwise `Execute`'s outcome holds. Idle buffers stay idle. It requires the system buffer to hold a whole record for every valid request |
| `NtLisp.Driver.DeviceControlChecked` | NtLisp/main.cpp:16-129 | the same outcomes with the record written only inside the capacity check, with no precondition on the system buffer's length |
| `NtLisp.ServeIdle` | NtLisp/main.cpp:16-129 | one NTLISP_RUN request with a terminated input and room for the reply, on an idle driver: it succeeds, sets `Information` to 16, its reply exports exactly this run's text, and the driver is idle again |
| `NtLisp.TwoRequests` | NtLisp/main.cpp:16-129 | two requests in a row on a fresh driver: both return success and the second sets `Information` to 16, the second reply's slots hold only the second run's text, and the driver is idle after each |
| `NtLisp.ShortRequestOverrunsReply` | NtLisp/main.cpp:35-66 | a one-byte request holding only NUL, with no output buffer, is a legal buffered IRP and passes the input check, yet its system buffer is shorter than the record written at lines 65-66 |

## Findings

| source | as written | input that shows it | evidently intended | confidence | as-written member | corrected member |
|---|---|---|---|---|---|---|
| NtLisp/main.cpp:65-66 | for every valid request both 8-byte fields of the reply record are stored into the system buffer, before the capacity check at line 100 | NTLISP_RUN with input length 1 (a single NUL byte) and output length 0: under METHOD_BUFFERED the system buffer is 1 byte, and the 16-byte write runs past it | null the record only inside the `output_length >= sizeof(ntlisp_result)` branch, where the system buffer is known to be at least that long | high; not executed | `NtLisp.ShortRequestOverrunsReply` | `NtLisp.Driver.DeviceControlChecked` |

`NtLisp.Driver.DeviceControl` models the code as written. It verifies only
under the precondition `|systemBuffer| >= ReplySize` for valid requests.
`ShortRequestOverrunsReply` shows a request that the I/O manager delivers
and that breaks this precondition. `DeviceControlChecked` and
`MarshalReplyChecked` move the nulling of the record inside the capacity
check and verify without the precondition. `TwoRequests` is a client of the
as-written handler. It shows that after one request the driver is idle, and
that the next reply carries only the next run's text.

## Left out

- `DriverEntry`, `unload_driver` and `security_check` (main.cpp:133-210) are not modelled. They create and delete the device and its link, and the open/close handler always succeeds.
- The interpreter's internals are not modelled. `lisp_read`, `lisp_eval`, `lisp_print`, `lisp_error_string` and `lisp_collect` are fixed per request by a `Lisp.Interpreter` value. `lisp_collect` appears only as a trace event. The global `LispContext` changes between requests only through the next request's `Interpreter` value. So concrete results, such as `(+ 1 2)` printing `3`, are not modelled.
- The logger's `string_buffer` capacity is not modelled: the buffer is an unbounded byte string. Any prefix that `logger::error` may add, and the `printf` formatting beyond the `%s` substitution, are also not modelled.
- `UserMemory.Process.Allocate`: the region has exactly the requested size. The real allocation is rounded up to whole pages, and the range is reserved at allocation granularity. Regions are keyed by base address; overlap between address ranges is not modelled.
- `UserMemory.Process.GuardedCopy`: a fault leaves a prefix of the bytes in place. The model does not cover a caller thread that frees or re-protects the region for good, nor a fault on the kernel side of the copy.
- `IoCompleteRequest` is only an event in the trace. What the I/O manager then copies back to user mode is not modelled.
- Concurrency: requests are handled one at a time. The absence of a lock around the global context and buffers (main.cpp:12) is not analysed.
- Pointers are 8 bytes (x64), so `sizeof(ntlisp_result)` is 16. A 32-bit build is not modelled.
