/** The SPI transport the driver talks through, as a scripted stand-in for the
    chip: chip-select bracketing (`enter`/`exit`), single-byte and buffer
    transfers, and the platform's `delay`. A ghost trace records what the
    driver did on the bus, in order. */
module Transport {
  import opened Bytes
  import opened Constants

  /** One thing that happened on the bus. */
  datatype Event =
    | Enter                    // chip-select asserted, transaction begun
    | Exit                     // chip-select released, transaction ended
    | Out(bytes: seq<byte>)    // bytes the host clocked out to the chip
    | In(bytes: seq<byte>)     // bytes the host read from the chip
    | Delay(ms: nat)           // a blocking sleep

  class Bus {
    /** Whether a transaction is open (chip-select asserted). */
    var selected: bool
    /** What the chip answers to successive status reads. */
    var statusIn: seq<byte>
    /** What the chip sends on successive data reads. */
    var dataIn: seq<byte>
    ghost var trace: seq<Event>

    constructor (status: seq<byte>, data: seq<byte>)
      ensures !selected && statusIn == status && dataIn == data && trace == []
    {
      selected := false;
      statusIn := status;
      dataIn := data;
      trace := [];
    }

    method Enter()
      requires !selected
      modifies this
      ensures selected && statusIn == old(statusIn) && dataIn == old(dataIn)
      ensures trace == old(trace) + [Event.Enter]
    {
      selected := true;
      trace := trace + [Event.Enter];
    }

    method Exit()
      requires selected
      modifies this
      ensures !selected && statusIn == old(statusIn) && dataIn == old(dataIn)
      ensures trace == old(trace) + [Event.Exit]
    {
      selected := false;
      trace := trace + [Event.Exit];
    }

    /** A single-byte transfer. The chip answers a status read with its next
        status byte; the reply to any other command byte carries nothing. */
    method Transfer(b: byte) returns (r: byte)
      requires selected
      modifies this
      ensures selected && dataIn == old(dataIn)
      ensures trace == old(trace) + [Out([b])]
      ensures b == SPI_STATUSREAD ==> r == Next(old(statusIn)) && statusIn == Drop(old(statusIn), 1)
      ensures b != SPI_STATUSREAD ==> r == 0 && statusIn == old(statusIn)
    {
      trace := trace + [Out([b])];
      if b == SPI_STATUSREAD {
        r := Next(statusIn);
        statusIn := Drop(statusIn, 1);
      } else {
        r := 0;
      }
    }

    /** A buffer transfer that carries `buf[..count]` to the chip. */
    method Send(buf: array<byte>, count: nat)
      requires selected && count <= buf.Length
      modifies this
      ensures selected && statusIn == old(statusIn) && dataIn == old(dataIn)
      ensures trace == old(trace) + [Out(buf[..count])]
    {
      trace := trace + [Out(buf[..count])];
    }

    /** A buffer transfer that fills `buf[..count]` with what the chip sends. */
    method Receive(buf: array<byte>, count: nat)
      requires selected && count <= buf.Length
      modifies this, buf
      ensures selected && statusIn == old(statusIn)
      ensures buf[..count] == Take(old(dataIn), count) && buf[count..] == old(buf[count..])
      ensures dataIn == Drop(old(dataIn), count)
      ensures trace == old(trace) + [In(Take(old(dataIn), count))]
    {
      for i := 0 to count
        modifies buf
        invariant buf[..i] == Take(dataIn, count)[..i]
        invariant buf[i..] == old(buf[i..])
      {
        buf[i] := if i < |dataIn| then dataIn[i] else 0;
      }
      trace := trace + [In(Take(dataIn, count))];
      dataIn := Drop(dataIn, count);
    }

    /** The platform's `delay(ms)`, recorded rather than waited out. */
    method Sleep(ms: nat)
      modifies this
      ensures selected == old(selected) && statusIn == old(statusIn) && dataIn == old(dataIn)
      ensures trace == old(trace) + [Delay(ms)]
    {
      trace := trace + [Delay(ms)];
    }
  }
}
