/** The part of `bytes.Buffer` that the printers use. */
module Buffers {
  import opened Bytes

  class Buffer {
    var contents: bytes

    constructor ()
      ensures contents == []
    {
      contents := [];
    }

    method WriteByte(c: byte)
      modifies this
      ensures contents == old(contents) + [c]
    {
      contents := contents + [c];
    }

    method Write(s: bytes)
      modifies this
      ensures contents == old(contents) + s
    {
      contents := contents + s;
    }

    method Truncate(n: nat)
      requires n <= |contents|
      modifies this
      ensures contents == old(contents)[..n]
    {
      contents := contents[..n];
    }
  }
}
