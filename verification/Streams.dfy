/** The two ends of a file descriptor: bytes written one after another, and bytes read one at a time. */
module Streams {
  import opened Bytes

  class Output {
    var text: seq<byte>

    constructor ()
      ensures text == []
    {
      text := [];
    }

    /** `write(fd, data, |data|)`. */
    method Write(data: seq<byte>)
      modifies this
      ensures text == old(text) + data
    {
      text := text + data;
    }
  }

  class Input {
    var pending: seq<byte>

    constructor (bytes: seq<byte>)
      ensures pending == bytes
    {
      pending := bytes;
    }

    /** `read(fd, &c, 1)`: at the end of the input `c` keeps its value and nothing is counted. */
    method ReadOne(c: byte) returns (n: nat, c': byte)
      modifies this
      ensures old(pending) == [] ==> n == 0 && c' == c && pending == []
      ensures old(pending) != [] ==> n == 1 && c' == old(pending)[0] && pending == old(pending)[1..]
    {
      if pending == [] {
        return 0, c;
      }
      n, c' := 1, pending[0];
      pending := pending[1..];
    }
  }
}
