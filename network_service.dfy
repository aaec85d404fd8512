/** NetworkService: the client of the relay oracle. The socket is modelled by two in-memory
    byte sequences (what the peer has sent and not yet been read, and everything written
    to the peer), the most bytes one read call hands back, and whether its streams throw.
    The background threads of connect and disconnect are counted when started and run by
    separate methods, in any order. */
module Network {
  import opened Apdu
  import opened Framing

  /** A freshly created socket: the bytes the peer will send, the most bytes one
      read(buffer, offset, n) call delivers, and whether the socket's streams throw. */
  datatype Link = Link(peer: seq<byte>, chunk: nat, broken: bool)

  class NetworkService {
    /** isNetworkServiceRunning */
    var running: bool
    /** Bytes received from the peer and not yet read. */
    var input: seq<byte>
    /** Every byte written to the peer, in order. */
    var output: seq<byte>
    /** The most bytes one read call delivers: reads may be partial. */
    var chunk: nat
    /** The socket's streams throw on every call. */
    var broken: bool
    /** connect threads started and not yet finished. */
    var openers: nat
    /** disconnect threads started and not yet finished. */
    var closers: nat

    ghost predicate Valid()
      reads this
    {
      chunk >= 1
    }

    /** Running on a socket whose streams work. */
    predicate Live()
      reads this
    {
      running && !broken
    }

    /** What waitForResponse needs of the stream when it gets to read: a complete message.
        The source does not handle the end of the stream (see README). */
    predicate CanReceive()
      reads this
    {
      Live() ==> FrameAvailable(input)
    }

    constructor ()
      ensures Valid() && !running && !broken
      ensures input == [] && output == [] && openers == 0 && closers == 0
    {
      running := false;
      input := [];
      output := [];
      chunk := 1;
      broken := false;
      openers := 0;
      closers := 0;
    }

    /** connect: when not running, start the thread that opens the socket; in every case
        report the flag as it is now. When already running it does nothing and returns true. */
    method Connect() returns (r: bool)
      modifies this`openers
      ensures r == running
      ensures openers == old(openers) + (if running then 0 else 1)
    {
      if !running {
        openers := openers + 1;
      }
      r := running;
    }

    /** disconnect: when running, start the thread that closes the socket; report whether
        the service is stopped. When not running it does nothing and returns true. */
    method Disconnect() returns (r: bool)
      modifies this`closers
      ensures r == !running
      ensures closers == old(closers) + (if running then 1 else 0)
    {
      if running {
        closers := closers + 1;
      }
      r := !running;
    }

    /** A connect thread finishes: with a socket `link` it installs it and sets the flag;
        when creating the socket threw (None) it only logs. */
    method OpenerFinished(link: Option<Link>)
      requires Valid() && openers > 0
      requires link.Some? ==> link.value.chunk >= 1
      modifies this
      ensures Valid() && openers == old(openers) - 1 && closers == old(closers)
      ensures link.None? ==> running == old(running) && input == old(input) && output == old(output)
                             && chunk == old(chunk) && broken == old(broken)
      ensures link.Some? ==> running && input == link.value.peer && output == []
                             && chunk == link.value.chunk && broken == link.value.broken
    {
      openers := openers - 1;
      if link.Some? {
        input, output, chunk, broken := link.value.peer, [], link.value.chunk, link.value.broken;
        running := true;
      }
    }

    /** A disconnect thread finishes: when close() succeeds the flag is cleared; when it
        throws the thread only logs. */
    method CloserFinished(closed: bool)
      requires Valid() && closers > 0
      modifies this`closers, this`running
      ensures Valid() && closers == old(closers) - 1
      ensures running == (old(running) && !closed)
    {
      closers := closers - 1;
      if closed {
        running := false;
      }
    }

    /** sendCommand: refuses when not running, and an I/O failure becomes false; otherwise
        the length byte and the payload are written, in that order. */
    method SendCommand(command: seq<byte>) returns (ok: bool)
      modifies this`output
      ensures ok == Live()
      ensures output == if Live() then old(output) + Frame(command) else old(output)
    {
      if !running {
        return false;
      }
      if broken {
        // the first write throws; the exception is caught and nothing was written
        return false;
      }
      output := output + [(|command| % 256) as byte];
      output := output + command;
      ok := true;
    }

    /** One read(buffer, offset, n) call: copies between 1 and n waiting bytes (at most
        `chunk`) into buffer[offset..] and returns how many. */
    method ReadInto(buffer: array<byte>, offset: nat, n: nat) returns (k: nat)
      requires Valid() && n >= 1 && offset + n <= buffer.Length && n <= |input|
      modifies this`input, buffer
      ensures 1 <= k <= n
      ensures buffer[offset..offset + k] == old(input)[..k]
      ensures forall j :: 0 <= j < buffer.Length && !(offset <= j < offset + k) ==> buffer[j] == old(buffer[j])
      ensures input == old(input)[k..]
    {
      k := if n < chunk then n else chunk;
      forall j | 0 <= j < k {
        buffer[offset + j] := input[j];
      }
      input := input[k..];
    }

    /** waitForResponse: null when not running or when reading fails; otherwise reads the
        length byte, then loops on partial reads until exactly that many bytes are in. */
    method WaitForResponse() returns (response: array?<byte>)
      requires Valid() && CanReceive()
      modifies this`input
      ensures Valid()
      ensures !Live() ==> response == null && input == old(input)
      ensures Live() ==> response != null && fresh(response)
                         && response[..] == FramePayload(old(input))
                         && input == FrameRest(old(input))
    {
      if !running {
        return null;
      }
      if broken {
        // read() throws; the exception is caught before anything is consumed
        return null;
      }
      ghost var stream := input;
      var len := input[0] as int;
      input := input[1..];
      var buffer := new byte[len];
      var read := 0;
      while read < len
        invariant 0 <= read <= len && Valid()
        invariant buffer[..read] == stream[1..1 + read]
        invariant input == stream[1 + read..]
        decreases len - read
      {
        ghost var before := buffer[..read];
        var k := ReadInto(buffer, read, len - read);
        assert buffer[..read] == before;
        assert buffer[read..read + k] == stream[1 + read..1 + read + k];
        assert buffer[..read + k] == buffer[..read] + buffer[read..read + k];
        assert stream[1..1 + read + k] == stream[1..1 + read] + stream[1 + read..1 + read + k];
        read := read + k;
      }
      response := buffer;
    }
  }
}
