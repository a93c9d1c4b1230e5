/** Byte streams with the freedom their Go interfaces leave: reads return pieces of any
    size, writes may take only part of what they are given. */
module Streams {
  import opened Hex

  datatype Status = Available | AtEnd | Failed

  /** What one read returned. */
  datatype ReadEvent = ReadEvent(chunk: seq<byte>, status: Status)

  /** What one write was given, how much of it was taken, and whether it failed. */
  datatype WriteEvent = WriteEvent(data: seq<byte>, taken: nat, failed: bool)

  /** An `io.Reader` over a finite stream that ends cleanly or in a fault. */
  class Source {
    const input: seq<byte>
    const clean: bool
    var position: nat
    ghost var readLog: seq<ReadEvent>

    ghost predicate Valid()
      reads this
    {
      position <= |input|
    }

    function Rest(): seq<byte>
      requires Valid()
      reads this
    {
      input[position..]
    }

    constructor (input: seq<byte>, clean: bool)
      ensures Valid() && position == 0 && this.input == input && this.clean == clean
      ensures readLog == []
    {
      this.input, this.clean := input, clean;
      position := 0;
      readLog := [];
    }

    /** Up to `max` bytes, and whether the stream goes on. The end of the stream may come
        with the last bytes or by itself; a fault may cut a faulty stream anywhere. */
    method Read(max: nat) returns (chunk: seq<byte>, status: Status)
      requires Valid() && max >= 1
      modifies this
      ensures Valid() && |chunk| <= max && position == old(position) + |chunk|
      ensures chunk == input[old(position)..position]
      ensures status == Available ==> chunk != []
      ensures status == AtEnd ==> clean && position == |input|
      ensures status == Failed ==> !clean
      ensures readLog == old(readLog) + [ReadEvent(chunk, status)]
    {
      var room := if max < |input| - position then max else |input| - position;
      var n: nat :| n <= room && (n >= 1 || room == 0);
      chunk := input[position..position + n];
      position := position + n;
      var stop: bool := *;
      if n == 0 || (stop && position == |input|) {
        status := if clean then AtEnd else Failed;
      } else {
        status := if stop && !clean then Failed else Available;
      }
      readLog := readLog + [ReadEvent(chunk, status)];
    }
  }

  /** An `io.Writer`: each write takes a prefix and may report a failure. */
  class Sink {
    var accepted: seq<byte>
    ghost var writeLog: seq<WriteEvent>

    constructor ()
      ensures accepted == [] && writeLog == []
    {
      accepted := [];
      writeLog := [];
    }

    method Write(data: seq<byte>) returns (n: nat, failed: bool)
      modifies this
      ensures n <= |data| && accepted == old(accepted) + data[..n]
      ensures writeLog == old(writeLog) + [WriteEvent(data, n, failed)]
    {
      n :| n <= |data|;
      failed := *;
      accepted := accepted + data[..n];
      writeLog := writeLog + [WriteEvent(data, n, failed)];
    }
  }
}
