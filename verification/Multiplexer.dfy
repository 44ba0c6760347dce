/** One record formatted into several backends through the shared `connection` field of the context
    (core/logpool.c, plugins/trace/multiplexer.c, plugins/trace/filter.c). */
module Multiplexer {
  import opened Bits
  import opened Memory
  import opened Format

  const COMMA: Byte := 44
  const NEWLINE: Byte := 10

  /** The string-family backends differ only in where a finished line goes. */
  datatype Sink = Stderr | File | Syslog

  /** The `fn_key` function pointers. */
  datatype KeyFn = KeyString | KeyFilter | KeyMul

  // ----- The line one record becomes -----

  function Body(fmts: seq<Fmt>): Bytes {
    if fmts == [] then []
    else Body(fmts[..|fmts| - 1]) + ([COMMA] + Rendered(fmts[|fmts| - 1], true))
  }

  /** Key, then a comma and the field, for every field. */
  function Line(id: Bytes, fmts: seq<Fmt>): Bytes {
    TRACE_ID + Cut(id) + Body(fmts)
  }

  /** The bytes before the first NUL. */
  function UpToNul(s: Bytes): Bytes {
    if s == [] || s[0] == 0 then [] else [s[0]] + UpToNul(s[1..])
  }

  /** What a backend writes out for a buffered line: a newline-terminated line, or for syslog the text
      as a C string. */
  function Shipped(sink: Sink, text: Bytes): Bytes {
    if sink.Syslog? then UpToNul(text) else text + [NEWLINE]
  }

  // ----- Backends -----

  lemma {:induction false} CString(text: Bytes)
    ensures UpToNul(text + [0]) == UpToNul(text)
  {
    if text != [] && text[0] != 0 {
      CString(text[1..]);
      assert (text + [0])[1..] == text[1..] + [0];
    }
  }

  class Backend {
    const buf: Buffer
    const sink: Sink

    ghost predicate Valid()
      reads buf`pos
    {
      buf.Valid()
    }

    constructor (sink: Sink, size: nat)
      ensures Valid() && buf.Text() == [] && buf.out == [] && buf.base.Length == size
      ensures fresh(buf) && fresh(buf.base) && this.sink == sink
    {
      this.sink := sink;
      buf := new Buffer(size);
    }

    /** `logpool_string_flush__`, `logpool_FILE_flush` and `logpool_syslog_flush`, once formatted. */
    method Ship()
      requires Valid() && buf.pos + 1 < buf.base.Length
      modifies buf, buf.base
      ensures Valid() && buf.pos == 0 && buf.out == old(buf.out) + [Shipped(sink, old(buf.Text()))]
    {
      ghost var text := buf.Text();
      buf.base[buf.pos] := 0;
      buf.pos := buf.pos + 1;
      if sink.Syslog? {
        CString(text);
        assert buf.base[..buf.pos] == text + [0];
        buf.out := buf.out + [UpToNul(buf.base[..buf.pos])];
      } else {
        buf.base[buf.pos - 1], buf.base[buf.pos] := NEWLINE, 0;
        assert buf.base[..buf.pos] == text + [NEWLINE];
        buf.out := buf.out + [buf.base[..buf.pos]];
      }
      buf.pos := 0;
    }
  }

  class Filter {
    const inner: Backend
    const emitLog: bool
    const fnKey: KeyFn

    constructor (inner: Backend, fnKey: KeyFn)
      ensures this.inner == inner && emitLog && this.fnKey == fnKey
    {
      this.inner, emitLog, this.fnKey := inner, true, fnKey;
    }
  }

  /** A connection: a plain backend, or a filter around one. */
  datatype Conn = Plain(backend: Backend) | Filtered(filter: Filter) {
    function Target(): Backend {
      match this
      case Plain(b) => b
      case Filtered(f) => f.inner
    }
  }

  datatype Entry = Entry(conn: Conn, fnKey: KeyFn)

  /** What the context's `connection` points to. */
  datatype Connection = One(entry: Entry) | Many(entries: seq<Entry>)

  /** `fn_key` reads the connection as the structure it was written for. */
  predicate KeyFits(e: Entry) {
    match e.conn
    case Plain(_) => e.fnKey == KeyString
    case Filtered(f) => e.fnKey == KeyFilter && f.fnKey == KeyString && f.emitLog
  }

  function EntriesOf(c: Connection): seq<Entry> {
    match c
    case One(e) => [e]
    case Many(es) => es
  }

  /** Entries whose key functions fit and whose buffers are separate objects. */
  ghost predicate WellFormed(es: seq<Entry>) {
    && (forall i :: 0 <= i < |es| ==> KeyFits(es[i]))
    && (forall i, j :: 0 <= i < j < |es| ==>
          es[i].conn.Target().buf != es[j].conn.Target().buf &&
            es[i].conn.Target().buf.base != es[j].conn.Target().buf.base)
  }

  ghost function Buffers(es: seq<Entry>): set<Buffer> {
    set e | e in es :: e.conn.Target().buf
  }

  ghost function Bases(es: seq<Entry>): set<array<Byte>> {
    set e | e in es :: e.conn.Target().buf.base
  }

  /** A formatter call. */
  datatype Op = KeyOp(id: Bytes) | DelimOp | FieldOp(f: Fmt)

  function OpText(op: Op): Bytes {
    match op
    case KeyOp(id) => TRACE_ID + Cut(id)
    case DelimOp => [COMMA]
    case FieldOp(f) => Rendered(f, true)
  }

  predicate OpOk(op: Op) {
    op.FieldOp? ==> Printable(op.f.val)
  }

  /** A backend holds `text` and has room for `more` bytes. */
  ghost predicate Holds(e: Entry, text: Bytes, more: nat)
    reads e.conn.Target().buf, e.conn.Target().buf.base
  {
    var buf := e.conn.Target().buf;
    buf.Valid() && buf.Text() == text && buf.pos + more <= buf.base.Length
  }

  ghost predicate AllHold(es: seq<Entry>, text: Bytes, more: nat)
    reads Buffers(es), Bases(es)
  {
    forall i :: 0 <= i < |es| ==> Holds(es[i], text, more)
  }

  lemma {:induction false} Targets(es: seq<Entry>, i: nat)
    requires i < |es|
    ensures es[i].conn.Target().buf in Buffers(es) && es[i].conn.Target().buf.base in Bases(es)
  {
    assert es[i] in es;
  }

  lemma {:induction false} BodyNone()
    ensures Body([]) == []
  {
  }

  lemma {:induction false} BodyMonotone(fmts: seq<Fmt>, i: nat)
    requires i <= |fmts|
    ensures |Body(fmts[..i])| <= |Body(fmts)|
    decreases |fmts|
  {
    if i < |fmts| {
      BodyMonotone(fmts[..|fmts| - 1], i);
      assert fmts[..|fmts| - 1][..i] == fmts[..i];
    } else {
      assert fmts[..i] == fmts;
    }
  }

  lemma {:induction false} BodyStep(fmts: seq<Fmt>, i: nat)
    requires i < |fmts|
    ensures Body(fmts[..i + 1]) == Body(fmts[..i]) + ([COMMA] + Rendered(fmts[i], true))
    ensures |Body(fmts[..i])| + 1 + |Rendered(fmts[i], true)| == |Body(fmts[..i + 1])| <= |Body(fmts)|
    ensures fmts[i] in fmts && Body(fmts[..0]) == []
  {
    assert fmts[..i + 1][..i] == fmts[..i];
    BodyMonotone(fmts, i + 1);
  }

  class Context {
    var connection: Connection
    const capacity: nat
    var fmt: seq<Fmt>
    var id: Bytes
    var isFlushed: bool
    var seqNo: nat

    constructor (connection: Connection, capacity: nat)
      requires capacity > 0
      ensures this.connection == connection && this.capacity == capacity && fmt == [] && !isFlushed && seqNo == 0
    {
      this.connection, this.capacity, fmt, id, isFlushed, seqNo := connection, capacity, [], [], false, 0;
    }

    /** A string-family formatter function on the current connection. */
    method OnPlain(op: Op, b: Backend)
      requires OpOk(op) && b.buf.Valid() && b.buf.pos + |OpText(op)| <= b.buf.base.Length
      modifies b.buf`pos, b.buf.base
      ensures b.buf.Valid() && b.buf.Text() == old(b.buf.Text()) + OpText(op)
    {
      ghost var was, p := b.buf.base[..], b.buf.pos;
      match op {
        case KeyOp(id) => b.buf.PutKey(id);
        case DelimOp => b.buf.PutString([COMMA]);
        case FieldOp(f) => b.buf.Emit(f, true);
      }
      assert Splice(was, p, OpText(op))[..p + |OpText(op)|] == was[..p] + OpText(op);
    }

    /** A backend's own formatter function; a filter swaps its inner connection in and out again. */
    method OnEntry(op: Op, e: Entry, ghost text: Bytes, ghost more: nat)
      requires connection == One(e) && KeyFits(e) && OpOk(op) && Holds(e, text, |OpText(op)| + more)
      modifies this`connection, e.conn.Target().buf`pos, e.conn.Target().buf.base
      ensures connection == One(e) && Holds(e, text + OpText(op), more)
    {
      match e.conn {
        case Plain(b) =>
          OnPlain(op, b);
        case Filtered(f) =>
          connection := One(Entry(Plain(f.inner), f.fnKey));
          OnPlain(op, f.inner);
          connection := One(e);
      }
    }

    method DoAll(op: Op, entries: seq<Entry>, ghost text: Bytes, ghost more: nat)
      requires OpOk(op) && WellFormed(entries) && AllHold(entries, text, |OpText(op)| + more)
      modifies this`connection, Buffers(entries)`pos, Bases(entries)
      ensures AllHold(entries, text + OpText(op), more)
    {
      hide Holds, OpText, OpOk, Buffers, Bases, KeyFits;
      for i := 0 to |entries|
        invariant forall j :: 0 <= j < i ==> Holds(entries[j], text + OpText(op), more)
        invariant forall j :: i <= j < |entries| ==> Holds(entries[j], text, |OpText(op)| + more)
      {
        Targets(entries, i);
        connection := One(entries[i]);
        OnEntry(op, entries[i], text, more);
      }
    }

    /** The formatter function of the context: `mul_exec` runs every entry's with its connection swapped in. */
    method Do(op: Op, ghost text: Bytes, ghost more: nat)
      requires OpOk(op) && WellFormed(EntriesOf(connection))
      requires AllHold(EntriesOf(connection), text, |OpText(op)| + more)
      modifies this`connection, Buffers(EntriesOf(connection))`pos, Bases(EntriesOf(connection))
      ensures connection == old(connection)
      ensures AllHold(EntriesOf(connection), text + OpText(op), more)
    {
      match connection {
        case One(e) =>
          Targets(EntriesOf(connection), 0);
          OnEntry(op, e, text, more);
        case Many(entries) =>
          var mul := connection;
          DoAll(op, entries, text, more);
          connection := mul;
      }
    }

    /** The delimiter and one queued field. */
    method DoField(i: nat, ghost text: Bytes, ghost more: nat)
      requires i < |fmt| && Printable(fmt[i].val) && WellFormed(EntriesOf(connection))
      requires AllHold(EntriesOf(connection), text, 1 + |Rendered(fmt[i], true)| + more)
      modifies this`connection, Buffers(EntriesOf(connection))`pos, Bases(EntriesOf(connection))
      ensures connection == old(connection)
      ensures AllHold(EntriesOf(connection), text + ([COMMA] + Rendered(fmt[i], true)), more)
    {
      hide AllHold, WellFormed, Rendered, Printable, Buffers, Bases;
      Do(DelimOp, text, |Rendered(fmt[i], true)| + more);
      Do(FieldOp(fmt[i]), text + [COMMA], more);
      assert text + [COMMA] + Rendered(fmt[i], true) == text + ([COMMA] + Rendered(fmt[i], true));
    }

    /** The field loop with its first round peeled off. */
    method FormatFields(ghost text: Bytes, ghost more: nat)
      requires 0 < |fmt| && WellFormed(EntriesOf(connection)) && forall f :: f in fmt ==> Printable(f.val)
      requires AllHold(EntriesOf(connection), text, |Body(fmt)| + more)
      modifies this`connection, Buffers(EntriesOf(connection))`pos, Bases(EntriesOf(connection))
      ensures connection == old(connection)
      ensures AllHold(EntriesOf(connection), text + Body(fmt), more)
    {
      hide AllHold, WellFormed, Body, Buffers, Bases, Rendered, Printable, EntriesOf;
      BodyNone();
      BodyStep(fmt, 0);
      assert fmt[..0] == [];
      DoField(0, text, |Body(fmt)| - |Body(fmt[..1])| + more);
      assert [] + ([COMMA] + Rendered(fmt[0], true)) == [COMMA] + Rendered(fmt[0], true);
      for i := 1 to |fmt|
        invariant connection == old(connection) && |Body(fmt[..i])| <= |Body(fmt)|
        invariant AllHold(EntriesOf(connection), text + Body(fmt[..i]), |Body(fmt)| - |Body(fmt[..i])| + more)
      {
        BodyStep(fmt, i);
        DoField(i, text + Body(fmt[..i]), |Body(fmt)| - |Body(fmt[..i + 1])| + more);
        assert text + Body(fmt[..i]) + ([COMMA] + Rendered(fmt[i], true)) == text + Body(fmt[..i + 1]);
      }
      assert fmt[..|fmt|] == fmt;
    }

    /** `logpool_format_flush`: nothing behind the latch; else key and fields, the queue emptied, the
        sequence number bumped and the latch set. */
    method FormatFlush(ghost text: Bytes, ghost more: nat)
      requires WellFormed(EntriesOf(connection)) && forall f :: f in fmt ==> Printable(f.val)
      requires AllHold(EntriesOf(connection), text, if isFlushed then more else |Line(id, fmt)| + more)
      modifies this, Buffers(EntriesOf(connection))`pos, Bases(EntriesOf(connection))
      ensures connection == old(connection) && id == old(id) && isFlushed
      ensures old(isFlushed) ==> fmt == old(fmt) && seqNo == old(seqNo)
      ensures !old(isFlushed) ==> fmt == [] && seqNo == old(seqNo) + 1
      ensures AllHold(EntriesOf(connection), if old(isFlushed) then text else text + old(Line(id, fmt)), more)
    {
      hide AllHold, WellFormed, Body, Buffers, Bases;
      if isFlushed {
        return;
      }
      BodyNone();
      Do(KeyOp(id), text, |Body(fmt)| + more);
      assert text + (TRACE_ID + Cut(id)) + Body(fmt) == text + Line(id, fmt);
      if |fmt| != 0 {
        FormatFields(text + (TRACE_ID + Cut(id)), more);
        fmt := [];
      } else {
        assert text + (TRACE_ID + Cut(id)) + [] == text + (TRACE_ID + Cut(id));
      }
      seqNo := seqNo + 1;
      isFlushed := true;
    }

    lemma {:induction false} Single(e: Entry)
      requires KeyFits(e)
      ensures WellFormed(EntriesOf(One(e)))
      ensures Buffers(EntriesOf(One(e))) == {e.conn.Target().buf} &&
        Bases(EntriesOf(One(e))) == {e.conn.Target().buf.base}
      ensures forall text: Bytes, more: nat :: AllHold(EntriesOf(One(e)), text, more) <==> Holds(e, text, more)
    {
      assert EntriesOf(One(e)) == [e];
      forall text: Bytes, more: nat
        ensures AllHold([e], text, more) <==> Holds(e, text, more)
      {
        assert AllHold([e], text, more) ==> Holds([e][0], text, more);
      }
    }

    /** `api->fn_flush` of one backend: format unless that is done, then ship the line. */
    method FlushEntry(e: Entry, ghost text: Bytes)
      requires connection == One(e) && KeyFits(e) && forall f :: f in fmt ==> Printable(f.val)
      requires Holds(e, text, if isFlushed then 2 else |Line(id, fmt)| + 2)
      modifies this, e.conn.Target().buf, e.conn.Target().buf.base
      ensures connection == One(e) && id == old(id) && isFlushed
      ensures seqNo == if old(isFlushed) then old(seqNo) else old(seqNo) + 1
      ensures fmt == if old(isFlushed) then old(fmt) else []
      ensures Holds(e, [], 0)
      ensures e.conn.Target().buf.out ==
        old(e.conn.Target().buf.out) +
          [Shipped(e.conn.Target().sink, if old(isFlushed) then text else text + old(Line(id, fmt)))]
    {
      hide Line, Shipped, Printable;
      Single(e);
      match e.conn {
        case Plain(b) =>
          FormatFlush(text, 2);
          b.Ship();
        case Filtered(f) =>
          if f.emitLog {
            FormatFlush(text, 2);
            connection := One(Entry(Plain(f.inner), f.fnKey));
            Single(Entry(Plain(f.inner), f.fnKey));
            FormatFlush(if old(isFlushed) then text else text + old(Line(id, fmt)), 2);
            f.inner.Ship();
            connection := One(e);
          }
      }
    }

    lemma {:induction false} Fits(es: seq<Entry>, i: nat)
      requires WellFormed(es) && i < |es|
      ensures KeyFits(es[i])
    {
    }

    /** Where shipping `line` stands for one backend that had written `before`. */
    static ghost predicate Progress(e: Entry, before: seq<Bytes>, line: Bytes, shipped: bool)
      reads e.conn.Target().buf, e.conn.Target().buf.base
    {
      var b := e.conn.Target();
      if shipped then Holds(e, [], 0) && b.buf.out == before + [Shipped(b.sink, line)]
      else Holds(e, line, 2) && b.buf.out == before
    }

    static lemma {:induction false} Stands(e: Entry, before: seq<Bytes>, line: Bytes, shipped: bool)
      ensures Progress(e, before, line, shipped) <==>
        if shipped then Holds(e, [], 0) && e.conn.Target().buf.out == before + [Shipped(e.conn.Target().sink, line)]
        else Holds(e, line, 2) && e.conn.Target().buf.out == before
    {
    }

    method ShipAll(entries: seq<Entry>, ghost line: Bytes)
      requires WellFormed(entries) && fmt == [] && isFlushed && AllHold(entries, line, 2)
      modifies this, Buffers(entries), Bases(entries)
      ensures isFlushed && seqNo == old(seqNo) && AllHold(entries, [], 0)
      ensures forall i :: 0 <= i < |entries| ==>
        var b := entries[i].conn.Target();
        b.buf.out == old(b.buf.out) + [Shipped(b.sink, line)]
    {
      hide Shipped, Buffers, Bases, KeyFits, Line, Printable, Progress, Holds;
      forall j | 0 <= j < |entries|
        ensures Progress(entries[j], old(entries[j].conn.Target().buf.out), line, false)
      {
        Stands(entries[j], entries[j].conn.Target().buf.out, line, false);
      }
      for i := 0 to |entries|
        invariant fmt == [] && isFlushed && seqNo == old(seqNo)
        invariant forall j :: 0 <= j < |entries| ==>
          Progress(entries[j], old(entries[j].conn.Target().buf.out), line, j < i)
      {
        Targets(entries, i);
        connection := One(entries[i]);
        Stands(entries[i], old(entries[i].conn.Target().buf.out), line, false);
        FlushEntry(entries[i], line);
        Stands(entries[i], old(entries[i].conn.Target().buf.out), line, true);
      }
      forall j | 0 <= j < |entries|
        ensures Holds(entries[j], [], 0)
        ensures entries[j].conn.Target().buf.out ==
          old(entries[j].conn.Target().buf.out) + [Shipped(entries[j].conn.Target().sink, line)]
      {
        Stands(entries[j], old(entries[j].conn.Target().buf.out), line, true);
      }
    }

    /** `logpool_Multiplexer_flush`: format once, then every backend's own flush. */
    method FlushMany(entries: seq<Entry>)
      requires connection == Many(entries) && WellFormed(entries) && forall f :: f in fmt ==> Printable(f.val)
      requires !isFlushed && AllHold(entries, [], |Line(id, fmt)| + 2)
      modifies this, Buffers(entries), Bases(entries)
      ensures connection == old(connection) && isFlushed && seqNo == old(seqNo) + 1
      ensures AllHold(entries, [], 0)
      ensures forall i :: 0 <= i < |entries| ==>
        var b := entries[i].conn.Target();
        b.buf.out == old(b.buf.out) + [Shipped(b.sink, old(Line(id, fmt)))]
    {
      hide Line, Shipped, Printable, AllHold, Holds, WellFormed;
      ghost var line := Line(id, fmt);
      assert [] + line == line;
      var mul := connection;
      FormatFlush([], 2);
      ShipAll(entries, line);
      connection := mul;
    }

    /** The context's own `fn_flush`: a plain or filtered backend alone, or the multiplexer. */
    method Flush()
      requires WellFormed(EntriesOf(connection)) && forall f :: f in fmt ==> Printable(f.val)
      requires !isFlushed && AllHold(EntriesOf(connection), [], |Line(id, fmt)| + 2)
      modifies this, Buffers(EntriesOf(connection)), Bases(EntriesOf(connection))
      ensures connection == old(connection) && isFlushed && seqNo == old(seqNo) + 1
      ensures AllHold(EntriesOf(connection), [], 0)
      ensures forall i :: 0 <= i < |EntriesOf(connection)| ==>
        var b := EntriesOf(connection)[i].conn.Target();
        b.buf.out == old(b.buf.out) + [Shipped(b.sink, old(Line(id, fmt)))]
    {
      hide Line, Shipped, Printable, AllHold, Holds, WellFormed;
      assert [] + Line(id, fmt) == Line(id, fmt);
      match connection {
        case One(e) =>
          Fits(EntriesOf(connection), 0);
          Single(e);
          FlushEntry(e, []);
          Single(e);
        case Many(entries) =>
          FlushMany(entries);
      }
    }

    /** `logpool_io_flush` on the context's own queue. It formats and sends whatever the latch says, and
        leaves the latch alone. */
    method StreamFlush(lp: Buffer)
      requires lp.Valid() && lp.pos == 0 && forall f :: f in fmt ==> Printable(f.val)
      requires |Sent(id, fmt)| <= lp.base.Length
      modifies this`fmt, this`seqNo, lp, lp.base
      ensures lp.Valid() && lp.pos == 0
      ensures lp.out == old(lp.out) + [Sent(id, old(fmt))]
      ensures fmt == [] && seqNo == old(seqNo) + 1
    {
      IoFlush(lp, id, fmt);
      fmt := [];
      seqNo := seqNo + 1;
    }

    /** `logpool_record_list`: queue the fields, drop the latch and flush. Every backend ships exactly the
        line it would ship alone, the record is formatted once, and the connection is back in place. */
    method Record(id: Bytes, fmts: seq<Fmt>)
      requires |fmts| < capacity
      requires WellFormed(EntriesOf(connection)) && forall f :: f in fmts ==> Printable(f.val)
      requires AllHold(EntriesOf(connection), [], |Line(id, fmts)| + 2)
      modifies this, Buffers(EntriesOf(connection)), Bases(EntriesOf(connection))
      ensures connection == old(connection) && isFlushed && seqNo == old(seqNo) + 1
      ensures AllHold(EntriesOf(connection), [], 0)
      ensures forall i :: 0 <= i < |EntriesOf(connection)| ==>
        var b := EntriesOf(connection)[i].conn.Target();
        b.buf.out == old(b.buf.out) + [Shipped(b.sink, Line(id, fmts))]
    {
      hide WellFormed, AllHold, Line, Printable, Shipped;
      this.id, fmt := id, [];
      for i := 0 to |fmts|
        invariant fmt == fmts[..i] && this.id == id
        invariant connection == old(connection) && seqNo == old(seqNo)
        modifies this`fmt
      {
        fmt := fmt + [fmts[i]];
      }
      assert fmts[..|fmts|] == fmts;
      isFlushed := false;
      Flush();
    }
  }

  // ----- Which key functions the multiplexer captures -----

  datatype Spec = Spec(sink: Sink, size: nat, filtered: bool)

  /** `ctx->fn_key` after the first `n` backends have been initialised: a filter replaces it for good. */
  function KeyAfter(specs: seq<Spec>, n: nat): KeyFn
    requires n <= |specs|
  {
    if n == 0 then KeyString else if specs[n - 1].filtered then KeyFilter else KeyAfter(specs, n - 1)
  }

  /** The entry a backend gets, given the key function before and after its initialisation. */
  ghost predicate EntryFor(e: Entry, spec: Spec, before: KeyFn, after: KeyFn) {
    && e.fnKey == after && e.conn.Target().sink == spec.sink
    && (e.conn.Filtered? <==> spec.filtered)
    && (e.conn.Filtered? ==> e.conn.filter.fnKey == before && e.conn.filter.emitLog)
  }

  lemma {:induction false} KeyAfterNone(specs: seq<Spec>)
    ensures KeyAfter(specs, 0) == KeyString
  {
  }

  lemma {:induction false} KeyAfterNext(specs: seq<Spec>, n: nat)
    requires n < |specs|
    ensures KeyAfter(specs, n + 1) == if specs[n].filtered then KeyFilter else KeyAfter(specs, n)
  {
  }

  lemma {:induction false} FreshHolds(e: Entry, size: nat)
    requires e.conn.Target().buf.Valid() && e.conn.Target().buf.pos == 0 && e.conn.Target().buf.base.Length == size
    ensures Holds(e, [], size)
  {
  }

  /** `logpool_Multiplexer_init`: each backend's `fn_init`, then the context's key function is captured. */
  method Init(specs: seq<Spec>) returns (entries: seq<Entry>, fnKey: KeyFn)
    ensures fnKey == KeyMul && |entries| == |specs|
    ensures forall i :: 0 <= i < |specs| ==> EntryFor(entries[i], specs[i], KeyAfter(specs, i), KeyAfter(specs, i + 1))
    ensures forall i :: 0 <= i < |specs| ==>
      fresh(entries[i].conn.Target().buf) && fresh(entries[i].conn.Target().buf.base)
      && Holds(entries[i], [], specs[i].size)
    ensures forall i, j :: 0 <= i < j < |entries| ==>
      entries[i].conn.Target().buf != entries[j].conn.Target().buf &&
        entries[i].conn.Target().buf.base != entries[j].conn.Target().buf.base
  {
    hide Holds, KeyAfter;
    KeyAfterNone(specs);
    var current := KeyString;
    entries := [];
    for i := 0 to |specs|
      invariant |entries| == i && current == KeyAfter(specs, i)
      invariant forall j :: 0 <= j < i ==> EntryFor(entries[j], specs[j], KeyAfter(specs, j), KeyAfter(specs, j + 1))
      invariant forall j :: 0 <= j < i ==>
        fresh(entries[j].conn.Target().buf) && fresh(entries[j].conn.Target().buf.base)
        && Holds(entries[j], [], specs[j].size)
      invariant forall j, k :: 0 <= j < k < i ==>
        entries[j].conn.Target().buf != entries[k].conn.Target().buf &&
          entries[j].conn.Target().buf.base != entries[k].conn.Target().buf.base
    {
      KeyAfterNext(specs, i);
      var b := new Backend(specs[i].sink, specs[i].size);
      var conn := Plain(b);
      if specs[i].filtered {
        var f := new Filter(b, current);
        conn := Filtered(f);
        current := KeyFilter;
      }
      FreshHolds(Entry(conn, current), specs[i].size);
      entries := entries + [Entry(conn, current)];
    }
    fnKey := KeyMul;
  }

  lemma {:induction false} PlainKeys(specs: seq<Spec>, n: nat)
    requires n < |specs| && forall i :: 0 <= i < |specs| - 1 ==> !specs[i].filtered
    ensures KeyAfter(specs, n) == KeyString
  {
    if n > 0 {
      PlainKeys(specs, n - 1);
    }
  }

  /** The captured key functions fit their connections exactly when every filter comes last. */
  lemma {:induction false} InitFitsIff(specs: seq<Spec>, entries: seq<Entry>)
    requires |entries| == |specs|
    requires forall i :: 0 <= i < |specs| ==> EntryFor(entries[i], specs[i], KeyAfter(specs, i), KeyAfter(specs, i + 1))
    ensures (forall i :: 0 <= i < |specs| ==> KeyFits(entries[i])) <==>
      (forall i :: 0 <= i < |specs| - 1 ==> !specs[i].filtered)
  {
    if forall i :: 0 <= i < |specs| - 1 ==> !specs[i].filtered {
      forall i | 0 <= i < |specs|
        ensures KeyFits(entries[i])
      {
        PlainKeys(specs, i);
        assert EntryFor(entries[i], specs[i], KeyAfter(specs, i), KeyAfter(specs, i + 1));
      }
    } else {
      var i :| 0 <= i < |specs| - 1 && specs[i].filtered;
      assert EntryFor(entries[i + 1], specs[i + 1], KeyAfter(specs, i + 1), KeyAfter(specs, i + 2));
      assert !KeyFits(entries[i + 1]);
    }
  }

  // ----- The bytes of a line -----

  /** "TraceID" and the id, then for every field a comma, its key and its text with strings quoted. */
  lemma {:induction false} LineMeans(id: Bytes, fmts: seq<Fmt>, f: Fmt)
    ensures Line(id, []) == [84, 114, 97, 99, 101, 73, 68] + Cut(id)
    ensures Line(id, fmts + [f]) == Line(id, fmts) + [44] + Cut(f.key) + ValueText(f.val, true)
  {
    hide ValueText;
    assert (fmts + [f])[..|fmts|] == fmts;
    var text := ValueText(f.val, true);
    assert Body(fmts) + ([44] + (Cut(f.key) + text)) == Body(fmts) + [44] + Cut(f.key) + text;
  }

  /** Files and stderr get the line and a newline, syslog the text up to its first NUL and no newline. */
  lemma {:induction false} ShippedMeans(text: Bytes)
    ensures Shipped(Stderr, text) == text + [10] && Shipped(File, text) == text + [10]
    ensures Shipped(Syslog, text) <= text && 0 !in Shipped(Syslog, text)
    ensures |Shipped(Syslog, text)| < |text| ==> text[|Shipped(Syslog, text)|] == 0
  {
    CStringMeans(text);
  }

  lemma {:induction false} CStringMeans(s: Bytes)
    ensures UpToNul(s) <= s && 0 !in UpToNul(s) && (|UpToNul(s)| < |s| ==> s[|UpToNul(s)|] == 0)
  {
    if s != [] && s[0] != 0 {
      CStringMeans(s[1..]);
      assert s == [s[0]] + s[1..];
    }
  }

  /** Record("t1", [("k", 5)]) becomes "TraceIDt1,k5". */
  lemma {:induction false} LineExample()
    ensures Shipped(File, Line([116, 49], [Fmt([107], IntVal(5))]))
      == [84, 114, 97, 99, 101, 73, 68, 116, 49, 44, 107, 53, 10]
  {
    var f := Fmt([107], IntVal(5));
    LineMeans([116, 49], [], f);
    assert [] + [f] == [f];
  }
}
