/** How core/stream.c and core/server.c cut an arbitrary byte stream into messages, on values. */
module Framing {
  import opened Bits
  import opened Wire
  import opened Wrappers

  const IO_BUFFER_SIZE: nat := 128

  function Min(a: nat, b: nat): nat {
    if a < b then a else b
  }

  /** Sums of the first `i` key and value lengths in `uint16_t` arithmetic. */
  function LengthSums(b: Bytes, i: nat): (r: (nat, nat))
    requires PROTOCOL_SIZE + 4 * i <= |b|
    ensures r.0 < 0x1_0000 && r.1 < 0x1_0000
  {
    if i == 0 then (0, 0)
    else
      var s := LengthSums(b, i - 1);
      ((s.0 + TableKey(b, i - 1)) % 0x1_0000, (s.1 + TableVal(b, i - 1)) % 0x1_0000)
  }

  lemma {:induction false} SumsStart(b: Bytes)
    requires PROTOCOL_SIZE <= |b|
    ensures LengthSums(b, 0) == (0, 0)
  {
  }

  lemma {:induction false} SumsNext(b: Bytes, i: nat)
    requires PROTOCOL_SIZE + 4 * (i + 1) <= |b|
    ensures LengthSums(b, i + 1) ==
      ((LengthSums(b, i).0 + U16At(b, 2 * (PROTOCOL_FIELDS + i * 2))) % 0x1_0000,
       (LengthSums(b, i).1 + U16At(b, 2 * (PROTOCOL_FIELDS + i * 2 + 1))) % 0x1_0000)
  {
    hide U16At;
  }

  function RequestSize(b: Bytes): nat
    requires PROTOCOL_SIZE <= |b| && PROTOCOL_SIZE + 4 * LogSize(b) <= |b|
  {
    var s := LengthSums(b, LogSize(b));
    PROTOCOL_SIZE + 4 * LogSize(b) + s.0 + s.1
  }

  /** The length of the message at the front of the stream, if the buffer can ever show it whole. */
  function Frame(total: Bytes): (r: Option<nat>)
    ensures r.Some? ==> PROTOCOL_SIZE <= r.value <= |total| && r.value <= IO_BUFFER_SIZE
    ensures r.Some? ==> PROTOCOL_SIZE + 4 * LogSize(total) <= r.value
  {
    var window := Min(|total|, IO_BUFFER_SIZE);
    if window < PROTOCOL_SIZE then None
    else if window < PROTOCOL_SIZE + 4 * LogSize(total) then None
    else if window < RequestSize(total) then None
    else Some(RequestSize(total))
  }

  /** What the read callback does with one message. */
  datatype Event = Registered(msg: Bytes) | Executed(msg: Bytes) | Quit | Aborted

  datatype Drained = Drained(events: seq<Event>, rest: Bytes, open: bool)

  function EventFor(msg: Bytes): Event
    requires PROTOCOL_SIZE <= |msg|
  {
    var p := Protocol(msg);
    if p == EVENT_READ then Registered(msg)
    else if p == EVENT_WRITE then Executed(msg)
    else if p == EVENT_QUIT then Quit
    else Aborted
  }

  /** The drain loop: dispatch whole messages until none is left or the connection ends. */
  function Drain(total: Bytes): (r: Drained)
    decreases |total|
  {
    match Frame(total)
    case None => Drained([], total, true)
    case Some(n) =>
      var e, rest := EventFor(total[..n]), total[n..];
      var d := if e.Registered? || e.Executed? then Drain(rest) else Drained([], rest, false);
      d.(events := [e] + d.events)
  }

  // ----- Framing depends on the message's own bytes only -----

  lemma {:induction false} LengthSumsAgree(a: Bytes, c: Bytes, i: nat)
    requires PROTOCOL_SIZE + 4 * i <= |a|
    ensures LengthSums(a + c, i) == LengthSums(a, i)
  {
    if i > 0 {
      LengthSumsAgree(a, c, i - 1);
      U16AtPrefix(a, c, 8 + 4 * (i - 1));
      U16AtPrefix(a, c, 8 + 4 * (i - 1) + 2);
    }
  }

  /** A complete message stays the same message whatever follows it. */
  lemma {:induction false} FrameStable(a: Bytes, c: Bytes)
    requires Frame(a).Some?
    ensures Frame(a + c) == Frame(a)
  {
    U16AtPrefix(a, c, 6);
    LengthSumsAgree(a, c, LogSize(a));
  }

  /** A message is recognised from its own bytes. */
  lemma {:induction false} FrameLocal(a: Bytes)
    requires Frame(a).Some?
    ensures Frame(a[..Frame(a).value]) == Frame(a)
  {
    var n := Frame(a).value;
    var m, c := a[..n], a[n..];
    assert a == m + c;
    U16AtPrefix(m, c, 6);
    LengthSumsAgree(m, c, LogSize(m));
  }

  lemma {:induction false} Prepend<T>(x: T, a: seq<T>, b: seq<T>)
    ensures [x] + (a + b) == [x] + a + b
  {
  }

  /** Draining a prefix first and the remainder later is the same as draining everything at once. */
  lemma {:induction false} DrainSplit(a: Bytes, c: Bytes)
    ensures Drain(a).open ==>
      var d := Drain(Drain(a).rest + c);
      Drain(a + c) == Drained(Drain(a).events + d.events, d.rest, d.open)
    ensures !Drain(a).open ==> Drain(a + c) == Drained(Drain(a).events, Drain(a).rest + c, false)
    decreases |a|
  {
    match Frame(a)
    case None =>
      assert [] + Drain(a + c).events == Drain(a + c).events;
    case Some(n) =>
      FrameStable(a, c);
      assert (a + c)[..n] == a[..n] && (a + c)[n..] == a[n..] + c;
      DrainSplit(a[n..], c);
      var e, d := EventFor(a[..n]), Drain(a[n..]);
      Prepend(e, d.events, Drain(d.rest + c).events);
  }

  /** Half-way through draining `total`: `events` dispatched so far, `pending` still to be drained. */
  ghost predicate Draining(total: Bytes, events: seq<Event>, pending: Bytes) {
    Drain(total) == Drain(pending).(events := events + Drain(pending).events)
  }

  lemma {:induction false} DrainingStart(total: Bytes)
    ensures Draining(total, [], total)
  {
    assert [] + Drain(total).events == Drain(total).events;
  }

  lemma {:induction false} DrainingStep(total: Bytes, events: seq<Event>, pending: Bytes, n: nat)
    requires Draining(total, events, pending) && Frame(pending) == Some(n)
    ensures var e := EventFor(pending[..n]);
      if e.Registered? || e.Executed? then Draining(total, events + [e], pending[n..])
      else Drain(total) == Drained(events + [e], pending[n..], false)
  {
    var e, d := EventFor(pending[..n]), Drain(pending[n..]);
    assert events + ([e] + d.events) == events + [e] + d.events;
    assert [e] + [] == [e];
  }

  lemma {:induction false} DrainingEnd(total: Bytes, events: seq<Event>, pending: Bytes)
    requires Draining(total, events, pending) && Frame(pending) == None
    ensures Drain(total) == Drained(events, pending, true)
  {
    assert events + [] == events;
  }

  lemma {:induction false} FrameNonEmpty(total: Bytes)
    ensures total == [] ==> Frame(total) == None
    ensures Frame(total).Some? ==> PROTOCOL_SIZE <= Frame(total).value <= |total|
  {
  }

  // ----- Arrivals -----

  /** The events of serving arrivals one after the other; after the end nothing more is read. */
  function Serve(pending: Bytes, chunks: seq<Bytes>): (r: Drained)
    decreases |chunks|
  {
    if chunks == [] then Drained([], pending, true)
    else
      var d := Drain(pending + chunks[0]);
      if !d.open then d
      else
        var s := Serve(d.rest, chunks[1..]);
        s.(events := d.events + s.events)
  }

  lemma {:induction false} ServeNone(pending: Bytes)
    ensures Serve(pending, []) == Drained([], pending, true)
  {
  }

  lemma {:induction false} ServeNext(pending: Bytes, chunks: seq<Bytes>)
    requires chunks != []
    ensures var d := Drain(pending + chunks[0]);
      Serve(pending, chunks) == if !d.open then d
        else Serve(d.rest, chunks[1..]).(events := d.events + Serve(d.rest, chunks[1..]).events)
  {
  }

  function Concat(chunks: seq<Bytes>): Bytes {
    if chunks == [] then [] else chunks[0] + Concat(chunks[1..])
  }

  lemma {:induction false} DrainRestIsShort(total: Bytes)
    requires Drain(total).open
    ensures Frame(Drain(total).rest) == None
    decreases |total|
  {
    match Frame(total)
    case None =>
    case Some(n) => DrainRestIsShort(total[n..]);
  }

  /** However the stream is cut into arrivals, the same messages are dispatched, for any bytes at all. */
  lemma {:induction false} ServeIsDrain(pending: Bytes, chunks: seq<Bytes>)
    requires Frame(pending) == None
    ensures Serve(pending, chunks).events == Drain(pending + Concat(chunks)).events
    ensures Serve(pending, chunks).open == Drain(pending + Concat(chunks)).open
    ensures Serve(pending, chunks).open ==> Serve(pending, chunks).rest == Drain(pending + Concat(chunks)).rest
    decreases |chunks|
  {
    if chunks == [] {
      assert pending + [] == pending;
    } else {
      var a, c := pending + chunks[0], Concat(chunks[1..]);
      assert pending + Concat(chunks) == a + c;
      DrainSplit(a, c);
      if Drain(a).open {
        DrainRestIsShort(a);
        ServeIsDrain(Drain(a).rest, chunks[1..]);
      }
    }
  }

  // ----- Streams of encoded messages -----

  lemma {:induction false} DataGrows(fields: seq<Field>, i: nat)
    requires i < |fields|
    ensures |Data(fields[..i + 1])| == |Data(fields[..i])| + |fields[i].key| + |fields[i].val| <= |Data(fields)|
  {
    DataPrefix(fields, i + 1);
    assert fields[..i + 1][..i] == fields[..i];
  }

  /** Total key and value bytes. */
  function KeySum(fields: seq<Field>): nat {
    if fields == [] then 0 else KeySum(fields[..|fields| - 1]) + |fields[|fields| - 1].key|
  }

  function ValSum(fields: seq<Field>): nat {
    if fields == [] then 0 else ValSum(fields[..|fields| - 1]) + |fields[|fields| - 1].val|
  }

  lemma {:induction false} DataSums(fields: seq<Field>)
    ensures |Data(fields)| == KeySum(fields) + ValSum(fields)
  {
    if fields != [] {
      DataSums(fields[..|fields| - 1]);
    }
  }

  lemma {:induction false} SumsAdd(b: Bytes, i: nat, k: nat, v: nat, ks: nat, vs: nat)
    requires PROTOCOL_SIZE + 4 * (i + 1) <= |b| && TableKey(b, i) == k && TableVal(b, i) == v
    requires LengthSums(b, i) == (ks % 0x1_0000, vs % 0x1_0000)
    ensures LengthSums(b, i + 1) == ((ks + k) % 0x1_0000, (vs + v) % 0x1_0000)
  {
    hide U16At;
    ModAdd(ks, k, 0x1_0000);
    ModAdd(vs, v, 0x1_0000);
  }

  lemma {:induction false} EncodeRoom(m: Message)
    ensures PROTOCOL_SIZE + 4 * |m.fields| + KeySum(m.fields) + ValSum(m.fields) == |Encode(m)|
  {
    DataSums(m.fields);
  }

  lemma {:induction false} EncodedSums(m: Message, i: nat)
    requires Encodable(m) && i <= |m.fields|
    ensures LengthSums(Encode(m), i) == (KeySum(m.fields[..i]) % 0x1_0000, ValSum(m.fields[..i]) % 0x1_0000)
  {
    hide Encode, LengthSums, Encodable, TableKey, TableVal;
    EncodeRoom(m);
    if i == 0 {
      SumsStart(Encode(m));
      assert m.fields[..0] == [];
    } else {
      EncodedSums(m, i - 1);
      EncodedLengths(m, i - 1);
      assert m.fields[..i][..i - 1] == m.fields[..i - 1];
      SumsAdd(Encode(m), i - 1, |m.fields[i - 1].key|, |m.fields[i - 1].val|, KeySum(m.fields[..i - 1]),
        ValSum(m.fields[..i - 1]));
    }
  }

  /** The size the receiver computes from the length table, in which both sums are `uint16_t`. */
  function Announced(fields: seq<Field>): nat {
    PROTOCOL_SIZE + 4 * |fields| + KeySum(fields) % 0x1_0000 + ValSum(fields) % 0x1_0000
  }

  lemma {:induction false} ModSmall(v: nat)
    ensures v % 0x1_0000 <= v && (v % 0x1_0000 == v <==> v < 0x1_0000)
  {
  }

  /** Only wrapping makes the announced size differ from the size sent. */
  lemma {:induction false} AnnouncedSize(m: Message)
    ensures Announced(m.fields) <= |Encode(m)|
    ensures Announced(m.fields) == |Encode(m)| <==> KeySum(m.fields) < 0x1_0000 && ValSum(m.fields) < 0x1_0000
  {
    hide Encode, KeySum, ValSum;
    EncodeRoom(m);
    ModSmall(KeySum(m.fields));
    ModSmall(ValSum(m.fields));
  }

  /** What the receiver makes of an encoded message of any size: once table and announced bytes fit the
      buffer it takes the announced number of bytes for the message, and otherwise it never takes any. */
  lemma {:induction false} FrameOfEncode(m: Message, rest: Bytes)
    requires Encodable(m)
    ensures Frame(Encode(m) + rest) == if Announced(m.fields) <= 128 then Some(Announced(m.fields)) else None
  {
    hide Encode, LengthSums, U16At, Encodable, KeySum, ValSum;
    var e := Encode(m);
    EncodeRoom(m);
    HeaderFields(m);
    U16AtPrefix(e, rest, 6);
    EncodedSums(m, |m.fields|);
    LengthSumsAgree(e, rest, |m.fields|);
    assert m.fields[..|m.fields|] == m.fields;
    AnnouncedSize(m);
    assert RequestSize(e + rest) == Announced(m.fields);
  }

  /** An encoded message is accepted whole exactly when it fits the 128-byte buffer. */
  lemma {:induction false} FrameOfEncodeIff(m: Message, rest: Bytes)
    requires Encodable(m)
    ensures Frame(Encode(m) + rest) == Some(|Encode(m)|) <==> |Encode(m)| <= 128
  {
    hide Encode, Frame, Encodable, Announced, KeySum, ValSum;
    FrameOfEncode(m, rest);
    AnnouncedSize(m);
    EncodeRoom(m);
  }

  /** A message is never delivered in any form, whatever arrives behind it, and so blocks its connection,
      exactly when the size it announces exceeds the buffer. Unless its length sums wrap, that is its own
      size. */
  lemma {:induction false} OversizedWedges(m: Message, rest: Bytes)
    requires Encodable(m)
    ensures Frame(Encode(m) + rest) == None <==> Announced(m.fields) > 128
    ensures KeySum(m.fields) < 0x1_0000 && ValSum(m.fields) < 0x1_0000 ==>
      (Frame(Encode(m) + rest) == None <==> |Encode(m)| > 128)
  {
    hide Encode, Frame, Encodable, Announced, KeySum, ValSum;
    FrameOfEncode(m, rest);
    AnnouncedSize(m);
  }

  /** It is cut short, the rest of it being read as further messages, exactly when its length sums wrap
      down to a size that fits. */
  lemma {:induction false} WrappedIsCut(m: Message, rest: Bytes)
    requires Encodable(m)
    ensures Frame(Encode(m) + rest).Some? && Frame(Encode(m) + rest).value < |Encode(m)|
      <==> Announced(m.fields) <= 128 && (KeySum(m.fields) >= 0x1_0000 || ValSum(m.fields) >= 0x1_0000)
  {
    hide Encode, Frame, Encodable, Announced, KeySum, ValSum;
    FrameOfEncode(m, rest);
    AnnouncedSize(m);
  }

  /** Two keys of 32768 bytes announce an empty message: the header and table alone are executed. */
  lemma {:induction false} WrappedExample(key: Bytes, rest: Bytes)
    requires |key| == 0x8000
    ensures var e := Encode(Message(0, EVENT_WRITE, [Field(key, []), Field(key, [])]));
      && |e| == 16 + 0x1_0000
      && Drain(e + rest).events != [] && Drain(e + rest).events[0] == Executed(e[..16])
  {
    var m := Message(0, EVENT_WRITE, [Field(key, []), Field(key, [])]);
    assert m.fields[..1] == [m.fields[0]] && m.fields[..1][..0] == [];
    assert KeySum(m.fields[..1]) == 0x8000 && ValSum(m.fields[..1]) == 0;
    EncodeRoom(m);
    FrameOfEncode(m, rest);
    HeaderFields(m);
    hide Encode, U16At, Encodable, Frame;
    var e := Encode(m);
    assert (e + rest)[..16] == e[..16];
    U16AtPrefix(e[..16], e[16..], 4);
    assert e == e[..16] + e[16..];
  }

  /** A message a peer may send: it fits the buffer and asks to be registered or executed. */
  predicate Sendable(m: Message) {
    && Encodable(m) && |Encode(m)| <= IO_BUFFER_SIZE
    && (m.protocol == EVENT_READ || m.protocol == EVENT_WRITE)
  }

  function EventOf(m: Message): Event {
    if m.protocol == EVENT_READ then Registered(Encode(m)) else Executed(Encode(m))
  }

  function EventsOf(msgs: seq<Message>): (r: seq<Event>)
    ensures |r| == |msgs|
    ensures forall i :: 0 <= i < |msgs| ==> r[i] == EventOf(msgs[i])
  {
    if msgs == [] then [] else [EventOf(msgs[0])] + EventsOf(msgs[1..])
  }

  function EncodeAll(msgs: seq<Message>): Bytes {
    if msgs == [] then [] else Encode(msgs[0]) + EncodeAll(msgs[1..])
  }

  /** How many messages the first `n` bytes of the stream contain completely. */
  function Complete(msgs: seq<Message>, n: nat): (k: nat)
    ensures k <= |msgs|
  {
    if msgs == [] || n < |Encode(msgs[0])| then 0
    else 1 + Complete(msgs[1..], n - |Encode(msgs[0])|)
  }

  /** `Complete` counts exactly the messages that end within the first `n` bytes. */
  lemma {:induction false} CompleteMeans(msgs: seq<Message>, n: nat)
    requires n <= |EncodeAll(msgs)|
    ensures |EncodeAll(msgs[..Complete(msgs, n)])| <= n
    ensures Complete(msgs, n) < |msgs| ==> n < |EncodeAll(msgs[..Complete(msgs, n) + 1])|
    decreases |msgs|
  {
    hide Encode;
    if msgs != [] && n >= |Encode(msgs[0])| {
      var k := Complete(msgs, n);
      CompleteMeans(msgs[1..], n - |Encode(msgs[0])|);
      assert msgs[..k][1..] == msgs[1..][..k - 1];
      if k < |msgs| {
        assert msgs[..k + 1][1..] == msgs[1..][..k];
      }
    } else if msgs != [] {
      assert msgs[..1][1..] == [];
    }
  }

  lemma {:induction false} PartialMessage(m: Message, n: nat)
    requires Sendable(m) && n < |Encode(m)|
    ensures Frame(Encode(m)[..n]) == None
  {
    var e := Encode(m);
    FrameOfEncodeIff(m, []);
    assert e + [] == e && e == e[..n] + e[n..];
    if Frame(e[..n]).Some? {
      FrameStable(e[..n], e[n..]);
    }
  }

  lemma {:induction false} DrainFirst(m: Message, rest: Bytes)
    requires Sendable(m)
    ensures Drain(Encode(m) + rest) == Drain(rest).(events := [EventOf(m)] + Drain(rest).events)
  {
    var e := Encode(m);
    FrameOfEncodeIff(m, rest);
    HeaderFields(m);
    assert (e + rest)[..|e|] == e && (e + rest)[|e|..] == rest;
  }

  /** Of the first `n` bytes, exactly the complete messages are dispatched, in order and byte for
      byte, and the tail of the incomplete one is kept. */
  ghost predicate DrainsTo(msgs: seq<Message>, n: nat)
    requires n <= |EncodeAll(msgs)|
  {
    var d, k := Drain(EncodeAll(msgs)[..n]), Complete(msgs, n);
    && d.open && d.events == EventsOf(msgs[..k])
    && EncodeAll(msgs)[..n] == EncodeAll(msgs[..k]) + d.rest
  }

  lemma {:induction false} ListNext(msgs: seq<Message>, n: nat)
    requires msgs != [] && |Encode(msgs[0])| <= n
    ensures EncodeAll(msgs) == Encode(msgs[0]) + EncodeAll(msgs[1..])
    ensures EventsOf(msgs) == [EventOf(msgs[0])] + EventsOf(msgs[1..])
    ensures Complete(msgs, n) == 1 + Complete(msgs[1..], n - |Encode(msgs[0])|)
  {
  }

  lemma {:induction false} DrainsToNext(msgs: seq<Message>, n: nat)
    requires msgs != [] && Sendable(msgs[0]) && |Encode(msgs[0])| <= n <= |EncodeAll(msgs)|
    requires DrainsTo(msgs[1..], n - |Encode(msgs[0])|)
    ensures DrainsTo(msgs, n)
  {
    hide Encode, Drain, Complete, EventsOf, EncodeAll;
    var e, tail, k := Encode(msgs[0]), msgs[1..], Complete(msgs, n);
    ListNext(msgs, n);
    ListNext(msgs[..k], |e|);
    assert msgs[..k][0] == msgs[0] && msgs[..k][1..] == tail[..k - 1];
    var later := EncodeAll(tail)[..n - |e|];
    assert EncodeAll(msgs)[..n] == e + later;
    DrainFirst(msgs[0], later);
    var front, rest := EncodeAll(tail[..k - 1]), Drain(later).rest;
    assert e + (front + rest) == e + front + rest;
  }

  lemma {:induction false} DrainOfMessages(msgs: seq<Message>, n: nat)
    requires n <= |EncodeAll(msgs)| && forall m :: m in msgs ==> Sendable(m)
    ensures DrainsTo(msgs, n)
    decreases |msgs|
  {
    if msgs == [] {
    } else if n < |Encode(msgs[0])| {
      assert msgs[0] in msgs;
      assert EncodeAll(msgs)[..n] == Encode(msgs[0])[..n];
      PartialMessage(msgs[0], n);
      assert msgs[..0] == [];
    } else {
      assert msgs[0] in msgs;
      DrainOfMessages(msgs[1..], n - |Encode(msgs[0])|);
      DrainsToNext(msgs, n);
    }
  }

  /** The main result: any cutting of a message stream into arrivals, complete or still on its way. */
  lemma {:induction false} ServeMessages(msgs: seq<Message>, chunks: seq<Bytes>)
    requires forall m :: m in msgs ==> Sendable(m)
    requires |Concat(chunks)| <= |EncodeAll(msgs)| && Concat(chunks) == EncodeAll(msgs)[..|Concat(chunks)|]
    ensures Serve([], chunks).open
    ensures Serve([], chunks).events == EventsOf(msgs[..Complete(msgs, |Concat(chunks)|)])
  {
    assert [] + Concat(chunks) == Concat(chunks);
    ServeIsDrain([], chunks);
    DrainOfMessages(msgs, |Concat(chunks)|);
  }

  // ----- Dispatch -----

  /** Which event a framed message becomes, by its protocol word: 2 registers, 1 executes, 3 quits, and
      anything else aborts. */
  lemma {:induction false} DispatchMeans(total: Bytes)
    requires Frame(total).Some?
    ensures var msg := total[..Frame(total).value];
      && 8 <= |msg| <= 128
      && (EventFor(msg) == Registered(msg) <==> msg[4] == 2 && msg[5] == 0)
      && (EventFor(msg) == Executed(msg) <==> msg[4] == 1 && msg[5] == 0)
      && (EventFor(msg) == Quit <==> msg[4] == 3 && msg[5] == 0)
      && (EventFor(msg) == Aborted <==> !(msg[5] == 0 && (msg[4] == 1 || msg[4] == 2 || msg[4] == 3)))
  {
  }

  lemma {:induction false} EventsAppend(msgs: seq<Message>, m: Message)
    ensures EventsOf(msgs + [m]) == EventsOf(msgs) + [EventOf(m)]
    ensures EncodeAll(msgs + [m]) == EncodeAll(msgs) + Encode(m) && EncodeAll([]) == []
    ensures m.protocol == 2 ==> EventOf(m) == Registered(Encode(m))
    ensures m.protocol == 1 ==> EventOf(m) == Executed(Encode(m))
  {
    hide Encode;
    if msgs == [] {
      assert [] + [m] == [m] && [m][1..] == [];
    } else {
      EventsAppend(msgs[1..], m);
      assert (msgs + [m])[1..] == msgs[1..] + [m];
    }
  }

  lemma {:induction false} DrainLast(q: Message, rest: Bytes)
    requires Encodable(q) && |Encode(q)| <= 128 && q.protocol != 1 && q.protocol != 2
    ensures Drain(Encode(q) + rest) == Drained([if q.protocol == 3 then Quit else Aborted], rest, false)
  {
    hide Encode, Encodable;
    var e := Encode(q);
    FrameOfEncodeIff(q, rest);
    HeaderFields(q);
    assert (e + rest)[..|e|] == e && (e + rest)[|e|..] == rest;
    var last := if q.protocol == 3 then Quit else Aborted;
    assert [last] + [] == [last];
  }

  /** A message of another protocol behind any number of READ and WRITE messages ends the connection, with
      QUIT for protocol 3 and the abort otherwise, and nothing behind it is touched. */
  lemma {:induction false} DrainStops(msgs: seq<Message>, q: Message, rest: Bytes)
    requires forall m :: m in msgs ==> Sendable(m)
    requires Encodable(q) && |Encode(q)| <= 128 && q.protocol != 1 && q.protocol != 2
    ensures Drain(EncodeAll(msgs) + Encode(q) + rest)
      == Drained(EventsOf(msgs) + [if q.protocol == 3 then Quit else Aborted], rest, false)
    decreases |msgs|
  {
    hide Encode, Encodable, Drain;
    var e := Encode(q);
    if msgs == [] {
      assert [] + e + rest == e + rest;
      DrainLast(q, rest);
      var last := if q.protocol == 3 then Quit else Aborted;
      assert EventsOf(msgs) + [last] == [last];
    } else {
      assert msgs[0] in msgs;
      var later := EncodeAll(msgs[1..]) + e + rest;
      assert EncodeAll(msgs) + e + rest == Encode(msgs[0]) + later;
      DrainFirst(msgs[0], later);
      DrainStops(msgs[1..], q, rest);
    }
  }

  /** The same over any cutting into arrivals: what arrives behind the message is never dispatched. */
  lemma {:induction false} ServeStops(msgs: seq<Message>, q: Message, rest: Bytes, chunks: seq<Bytes>)
    requires forall m :: m in msgs ==> Sendable(m)
    requires Encodable(q) && |Encode(q)| <= 128 && q.protocol != 1 && q.protocol != 2
    requires Concat(chunks) == EncodeAll(msgs) + Encode(q) + rest
    ensures !Serve([], chunks).open
    ensures Serve([], chunks).events == EventsOf(msgs) + [if q.protocol == 3 then Quit else Aborted]
  {
    hide Encode, Drain, Serve;
    assert [] + Concat(chunks) == Concat(chunks);
    EmptyFrame();
    ServeIsDrain([], chunks);
    DrainStops(msgs, q, rest);
  }

  lemma {:induction false} EmptyFrame()
    ensures Frame([]) == None
  {
  }
}
