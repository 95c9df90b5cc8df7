/** The bounded FIFO between an application and a TCP endpoint. */
module ByteStreams {
  import opened MachineInts

  const READ_BYTES_SIZE: nat := 128

  /**
   * A stream seen from outside: everything ever accepted from the writer, and how much of it the reader has
   * already removed.
   */
  datatype Stream = Stream(capacity: nat, accepted: seq<byte>, popped: nat, closed: bool) {
    predicate Valid() {
      popped <= |accepted| <= popped + capacity
    }

    function Buffered(): seq<byte>
      requires Valid()
    {
      accepted[popped..]
    }

    function Available(): nat
      requires Valid()
    {
      popped + capacity - |accepted|
    }

    /** The first stream index that does not fit, even if the whole window below it arrives. */
    function Tail(): nat {
      popped + capacity
    }

    function Peek(): seq<byte>
      requires Valid()
    {
      Buffered()[..Min(READ_BYTES_SIZE, |Buffered()|)]
    }

    function Finished(): bool
      requires Valid()
    {
      closed && popped == |accepted|
    }

    function Push(data: seq<byte>): (s: Stream)
      requires Valid()
      ensures s.Valid()
      ensures accepted <= s.accepted && s.accepted[|accepted|..] <= data
      ensures |s.accepted| - |accepted| == Min(|data|, Available())
      ensures |data| <= Available() ==> s.accepted == accepted + data
    {
      this.(accepted := accepted + data[..Min(|data|, Available())])
    }

    function Pop(n: nat): (s: Stream)
      ensures Valid() ==> s.Valid() && s.popped - popped == Min(n, |Buffered()|)
      ensures Valid() ==> accepted[popped..s.popped] + s.Buffered() == Buffered()
    {
      this.(popped := Min(popped + n, |accepted|))
    }
  }

  class ByteStream {
    const capacity: nat
    var bytesPushed: nat
    var bytesPopped: nat
    var buffer: seq<byte>
    var closed: bool
    // Every byte the writer ever got in; the buffer is what the reader has not removed of it.
    ghost var accepted: seq<byte>

    ghost predicate Valid()
      reads this
    {
      && bytesPushed == |accepted|
      && bytesPopped <= bytesPushed
      && buffer == accepted[bytesPopped..]
      && |buffer| <= capacity
    }

    ghost function State(): (s: Stream)
      reads this
      ensures Valid() ==> s.Valid() && s.Buffered() == buffer
    {
      Stream(capacity, accepted, bytesPopped, closed)
    }

    constructor (capacity: nat)
      ensures Valid() && State() == Stream(capacity, [], 0, false)
    {
      this.capacity := capacity;
      bytesPushed, bytesPopped, buffer, closed := 0, 0, [], false;
      accepted := [];
    }

    function AvailableCapacity(): (n: nat)
      requires Valid()
      reads this
      ensures n == State().Available()
    {
      capacity - |buffer|
    }

    function Peek(): (view: seq<byte>)
      requires Valid()
      reads this
      ensures view == State().Peek()
    {
      if |buffer| < READ_BYTES_SIZE then buffer else buffer[..READ_BYTES_SIZE]
    }

    function BytesBuffered(): (n: nat)
      requires Valid()
      reads this
      ensures n == bytesPushed - bytesPopped
    {
      |buffer|
    }

    function IsFinished(): (b: bool)
      requires Valid()
      reads this
      ensures b == State().Finished()
    {
      closed && BytesBuffered() == 0
    }

    method Push(data: seq<byte>)
      requires Valid()
      modifies this
      ensures Valid() && State() == old(State()).Push(data)
    {
      if |data| > AvailableCapacity() {
        if AvailableCapacity() != 0 {
          var head := data[..AvailableCapacity()];
          bytesPushed := bytesPushed + |head|;
          accepted := accepted + head;
          buffer := buffer + head;
        } else {
          assert accepted + data[..0] == accepted;
        }
      } else {
        assert data[..|data|] == data;
        bytesPushed := bytesPushed + |data|;
        accepted := accepted + data;
        buffer := if |buffer| == 0 then data else buffer + data;
      }
    }

    method Close()
      requires Valid()
      modifies this`closed
      ensures Valid() && State() == old(State()).(closed := true)
    {
      closed := true;
    }

    method Pop(len: nat)
      requires Valid()
      modifies this
      ensures Valid() && State() == old(State()).Pop(len)
    {
      if |buffer| < len {
        bytesPopped := bytesPopped + |buffer|;
      } else {
        bytesPopped := bytesPopped + len;
      }
      buffer := buffer[Min(len, |buffer|)..];
    }
  }
}
