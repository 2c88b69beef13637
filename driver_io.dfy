/** The interface shared by the driver and its user-mode client: the control
    code of the one request the driver serves, and the reply record it writes
    back (two pointers, laid out little-endian as on x64). */
module DriverIo {

  /** One byte of memory (a C `char`). */
  type Byte = b: int | 0 <= b < 0x100

  /** A 64-bit user-mode address; 0 is the null pointer. */
  type Address = a: int | 0 <= a < 0x1_0000_0000_0000_0000

  const Null: Address := 0

  // ---------------------------------------------------------------------
  // Control codes
  // ---------------------------------------------------------------------

  const MethodBuffered: nat := 0
  const FileAnyAccess: nat := 0

  /** CTL_CODE: device type in bits 16-31, required access in bits 14-15,
      function number in bits 2-13, transfer method in bits 0-1. */
  function CtlCode(deviceType: nat, functionCode: nat, transfer: nat, access: nat): (code: nat)
    requires deviceType < 0x1_0000 && functionCode < 0x1000 && transfer < 4 && access < 4
    ensures code < 0x1_0000_0000
    ensures TransferMethod(code) == transfer
    ensures (code / 4) % 0x1000 == functionCode
    ensures (code / 0x4000) % 4 == access
    ensures code / 0x1_0000 == deviceType
  {
    deviceType * 0x1_0000 + access * 0x4000 + functionCode * 4 + transfer
  }

  /** METHOD_FROM_CTL_CODE: how the I/O manager passes the buffers. */
  function TransferMethod(code: nat): (transfer: nat)
    ensures transfer < 4
  {
    code % 4
  }

  /** NTLISP_RUN. */
  const NtlispRun: nat := 0x13_00DC

  /** NTLISP_RUN is CTL_CODE(0x13, 0x37, METHOD_BUFFERED, FILE_ANY_ACCESS),
      so the I/O manager passes its buffers through one system buffer. */
  lemma NtlispRunIsBuffered()
    ensures NtlispRun == CtlCode(0x13, 0x37, MethodBuffered, FileAnyAccess)
    ensures TransferMethod(NtlispRun) == MethodBuffered
  {
  }

  // ---------------------------------------------------------------------
  // Little-endian encoding of pointers
  // ---------------------------------------------------------------------

  function Pow256(n: nat): (p: nat)
    ensures p >= 1
  {
    if n == 0 then 1 else 0x100 * Pow256(n - 1)
  }

  /** The value of a little-endian byte string; it fits the string's width. */
  function DecodeLe(b: seq<Byte>): (x: nat)
    ensures x < Pow256(|b|)
  {
    if b == [] then 0 else b[0] + 0x100 * DecodeLe(b[1..])
  }

  /** The n-byte little-endian representation of x, which the decoder reads back. */
  function EncodeLe(x: nat, n: nat): (b: seq<Byte>)
    requires x < Pow256(n)
    ensures |b| == n
    ensures DecodeLe(b) == x
  {
    if n == 0 then [] else [x % 0x100] + EncodeLe(x / 0x100, n - 1)
  }

  /** The other direction: every n-byte string is the encoding of its value. */
  lemma {:induction false} EncodeDecodeLe(b: seq<Byte>)
    ensures EncodeLe(DecodeLe(b), |b|) == b
  {
    if b != [] {
      EncodeDecodeLe(b[1..]);
      assert DecodeLe(b) % 0x100 == b[0];
      assert DecodeLe(b) / 0x100 == DecodeLe(b[1..]);
    }
  }

  // ---------------------------------------------------------------------
  // The reply record
  // ---------------------------------------------------------------------

  const PointerSize: nat := 8

  /** sizeof(ntlisp_result) on x64. */
  const ReplySize: nat := 2 * PointerSize

  /** ntlisp_result: where the error text and the output text were placed
      in the caller's address space, each possibly null. */
  datatype Reply = Reply(errors: Address, outputs: Address)

  function EncodePointer(a: Address): (b: seq<Byte>)
    ensures |b| == PointerSize
    ensures DecodePointer(b) == a
  {
    assert Pow256(PointerSize) == 0x1_0000_0000_0000_0000;
    EncodeLe(a, PointerSize)
  }

  function DecodePointer(b: seq<Byte>): (a: Address)
    requires |b| == PointerSize
  {
    assert Pow256(PointerSize) == 0x1_0000_0000_0000_0000;
    DecodeLe(b)
  }

  /** The bytes of the record: `errors` at offset 0, `outputs` at offset 8. */
  function EncodeReply(r: Reply): (b: seq<Byte>)
    ensures |b| == ReplySize
    ensures DecodeReply(b) == r
  {
    var b := EncodePointer(r.errors) + EncodePointer(r.outputs);
    assert b[..PointerSize] == EncodePointer(r.errors);
    assert b[PointerSize..] == EncodePointer(r.outputs);
    b
  }

  /** What the client reads back from the record's bytes. */
  function DecodeReply(b: seq<Byte>): (r: Reply)
    requires |b| == ReplySize
  {
    Reply(DecodePointer(b[..PointerSize]), DecodePointer(b[PointerSize..]))
  }

  /** Every record-sized byte string is the encoding of what it decodes to. */
  lemma EncodeDecodeReply(b: seq<Byte>)
    requires |b| == ReplySize
    ensures EncodeReply(DecodeReply(b)) == b
  {
    EncodeDecodeLe(b[..PointerSize]);
    EncodeDecodeLe(b[PointerSize..]);
    assert b == b[..PointerSize] + b[PointerSize..];
  }
}
