/** The logger's capture buffer (logger::string_buffer): text accumulated
    while one request runs. Its growth and overflow policy is not part of
    this model; the buffer is an unbounded byte string. */
module Logger {
  import opened DriverIo

  class StringBuffer {
    /** raw[0 .. iterator): the bytes written since the last reset. */
    var text: seq<Byte>

    constructor ()
      ensures text == []
    {
      text := [];
    }

    method Append(s: seq<Byte>)
      modifies this
      ensures text == old(text) + s
    {
      text := text + s;
    }

    /** reset(): the cursor goes back to 0. */
    method Reset()
      modifies this
      ensures text == []
    {
      text := [];
    }
  }
}
