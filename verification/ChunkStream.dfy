/** The compacting receive buffer of core/stream.c and the read callback of core/server.c. */
module ChunkStream {
  import opened Bits
  import opened Wire
  import opened Framing
  import opened Wrappers

  /** Where a delivered message lies in the buffer. */
  datatype Delivered = Delivered(pos: nat, size: nat)

  class ChunkStream {
    const buffer: array<Byte>
    var cur: nat
    var len: nat
    var input: Bytes  // the bufferevent's unread input

    ghost predicate Valid()
      reads this
    {
      buffer.Length == IO_BUFFER_SIZE && cur + len <= IO_BUFFER_SIZE
    }

    ghost function Buffered(): Bytes
      requires Valid()
      reads this, buffer
    {
      buffer[cur..cur + len]
    }

    /** Everything received and not yet delivered, buffered or not. */
    ghost function Pending(): (p: Bytes)
      requires Valid()
      reads this, buffer
      ensures len <= |p|
    {
      Buffered() + input
    }

    constructor ()
      ensures Valid() && fresh(buffer) && Pending() == []
    {
      buffer := new Byte[IO_BUFFER_SIZE](_ => 0);
      cur, len, input := 0, 0, [];
    }

    /** `memmove` to the front, then read as much as there is room for. */
    method Reset(request: nat) returns (ok: bool)
      requires Valid()
      modifies this, buffer
      ensures Valid() && Pending() == old(Pending())
      ensures cur == 0 && len == Min(|Pending()|, IO_BUFFER_SIZE)
      ensures ok <==> len >= request
    {
      ghost var total := Pending();
      if len != 0 {
        forall i | 0 <= i < len {
          buffer[i] := buffer[cur + i];
        }
      }
      var n := Min(|input|, IO_BUFFER_SIZE - len);
      forall i | 0 <= i < n {
        buffer[len + i] := input[i];
      }
      assert buffer[..len + n] == total[..len + n];
      assert input[n..] == total[len + n..];
      input := input[n..];
      len, cur := len + n, 0;
      ok := len >= request;
    }

    /** Hands out the next `offset` bytes in place. */
    method Next(offset: nat) returns (d: nat)
      requires Valid() && offset <= len
      modifies this
      ensures Valid() && d == old(cur) && buffer[d..d + offset] == old(Pending())[..offset]
      ensures Pending() == old(Pending())[offset..] && input == old(input)
    {
      d := cur;
      len := len - offset;
      cur := cur + offset;
    }

    /** Succeeds exactly when `request` bytes have arrived and fit the buffer. */
    method CheckSize(request: nat) returns (ok: bool)
      requires Valid()
      modifies this, buffer
      ensures Valid() && Pending() == old(Pending())
      ensures ok <==> request <= Min(|Pending()|, IO_BUFFER_SIZE)
      ensures ok ==> request <= len
    {
      if len < request {
        if |input| == 0 {
          return false;
        }
        ok := Reset(request);
        if !ok {
          return false;
        }
      }
      return true;
    }

    /** A little-endian 16-bit load from the current message. */
    method Load(off: nat) returns (v: nat)
      requires Valid() && off + 2 <= len
      ensures v == U16At(Pending(), off)
    {
      var lo, hi := buffer[cur + off], buffer[cur + off + 1];
      assert lo == Pending()[off] && hi == Pending()[off + 1];
      v := lo as int + 256 * (hi as int);
    }

    method SumLengths(logsize: nat) returns (klen: nat, vlen: nat)
      requires Valid() && PROTOCOL_SIZE + 4 * logsize <= len
      ensures (klen, vlen) == LengthSums(Pending(), logsize)
    {
      hide U16At, Pending, LengthSums;
      ghost var b := Pending();
      SumsStart(b);
      klen, vlen := 0, 0;
      for i := 0 to logsize
        invariant (klen, vlen) == LengthSums(b, i)
        modifies {}
      {
        SumsNext(b, i);
        var off := 2 * (PROTOCOL_FIELDS + i * 2);
        var k := Load(off);
        var v := Load(off + 2);
        klen, vlen := (klen + k) % 0x1_0000, (vlen + v) % 0x1_0000;
      }
    }

    /** Reads header and length table, as far as they have arrived. */
    method Measure() returns (request: Option<nat>)
      requires Valid()
      modifies this, buffer
      ensures Valid() && Pending() == old(Pending())
      ensures request == None ==> Frame(Pending()) == None
      ensures request.Some? ==>
        Frame(Pending()) == if request.value <= Min(|Pending()|, IO_BUFFER_SIZE) then request else None
    {
      hide LengthSums, U16At, Pending;
      var ok := CheckSize(PROTOCOL_SIZE);
      if !ok { return None; }
      var logsize := Load(6);
      ok := CheckSize(PROTOCOL_SIZE + 2 * logsize * 2);
      if !ok { return None; }
      var klen, vlen := SumLengths(logsize);
      return Some(PROTOCOL_SIZE + 2 * logsize * 2 + klen + vlen);
    }

    /** Delivers the message at the front of the stream if it is complete, and otherwise only buffers. */
    method Get() returns (r: Option<Delivered>)
      requires Valid()
      modifies this, buffer
      ensures Valid()
      ensures r == None ==> Frame(old(Pending())) == None && Pending() == old(Pending())
      ensures r.Some? ==>
        && Frame(old(Pending())) == Some(r.value.size) && r.value.pos + r.value.size <= buffer.Length
        && buffer[r.value.pos..r.value.pos + r.value.size] == old(Pending())[..r.value.size]
        && Pending() == old(Pending())[r.value.size..]
    {
      var request := Measure();
      if request == None { return None; }
      var ok := CheckSize(request.value);
      if !ok { return None; }
      var pos := Next(request.value);
      return Some(Delivered(pos, request.value));
    }
  }

  /** One client connection of the server. */
  class Connection {
    const cs: ChunkStream
    var events: seq<Event>
    var open: bool

    ghost predicate Valid()
      reads this, cs
    {
      cs.Valid()
    }

    constructor ()
      ensures Valid() && fresh(cs) && fresh(cs.buffer) && cs.Pending() == [] && events == [] && open
    {
      cs := new ChunkStream();
      events, open := [], true;
    }

    /** `server_read_callback`: drain the stream, dispatching every complete message. */
    method ReadCallback()
      requires Valid() && open
      modifies this, cs, cs.buffer
      ensures Valid()
      ensures var d := Drain(old(cs.Pending()));
        events == old(events) + d.events && cs.Pending() == d.rest && open == d.open
    {
      hide Drain, Frame, EventFor, Draining, U16At;
      ghost var before, total, done := events, cs.Pending(), [];
      DrainingStart(total);
      while true
        invariant Valid() && open
        invariant events == before + done && Draining(total, done, cs.Pending())
        decreases |cs.Pending()|
      {
        ghost var was := cs.Pending();
        if cs.len == 0 && |cs.input| == 0 {
          assert was == [];
          FrameNonEmpty(was);
          break;
        }
        var log := cs.Get();
        if log == None { break; }
        var e := EventFor(cs.buffer[log.value.pos..log.value.pos + log.value.size]);
        DrainingStep(total, done, was, log.value.size);
        FrameNonEmpty(was);
        events := events + [e];
        done := done + [e];
        if e.Quit? || e.Aborted? {
          open := false;
          return;
        }
      }
      DrainingEnd(total, done, cs.Pending());
    }

    /** The event loop: each arrival extends the unread input and triggers the callback; a closed
        connection reads nothing more. */
    method Receive(chunks: seq<Bytes>)
      requires Valid() && open
      modifies this, cs, cs.buffer
      ensures Valid()
      ensures var s := Serve(old(cs.Pending()), chunks);
        events == old(events) + s.events && open == s.open && cs.Pending() == s.rest
    {
      hide Drain, Serve, Frame;
      if chunks == [] {
        ServeNone(cs.Pending());
        return;
      }
      ServeNext(cs.Pending(), chunks);
      ghost var was, done := cs.Pending(), events;
      cs.input := cs.input + chunks[0];
      assert cs.Pending() == was + chunks[0];
      ReadCallback();
      if open {
        ghost var mid, first := events, cs.Pending();
        Receive(chunks[1..]);
        assert done + (Drain(was + chunks[0]).events + Serve(first, chunks[1..]).events)
            == mid + Serve(first, chunks[1..]).events;
      }
    }
  }
}
