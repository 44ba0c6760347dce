/** Rendering of log fields into a cursor buffer (plugins/trace/lpstring.c) and the stream backend that
    turns a record into one wire message (plugins/trace/stream.c). */
module Format {
  import opened Bits
  import opened Memory
  import opened Printers
  import opened Wire
  import opened Encoder
  import opened Framing
  import opened Wrappers

  const TRACE_ID: Bytes := [84, 114, 97, 99, 101, 73, 68]
  const NULL_TEXT: Bytes := [110, 117, 108, 108, 0]
  const TRUE_TEXT: Bytes := [116, 114, 117, 101]
  const FALSE_TEXT: Bytes := [102, 97, 108, 115, 101]
  const HEX_PREFIX: Bytes := [48, 120]
  const QUOTE: Byte := 39

  /** The value of a queued field, by the formatter function it is queued with. */
  datatype Val =
    | NullVal
    | BoolVal(u: nat)
    | IntVal(i: int)
    | HexVal(u: nat)
    | FloatVal(thousandths: int)  // the `(intptr_t)(f * 1000)` of the double
    | CharVal(c: Byte)
    | StringVal(s: Bytes)
    | RawVal(s: Bytes)

  datatype Fmt = Fmt(key: Bytes, val: Val)

  /** Arguments the number printers handle: `INT64_MIN` has no negation and `put_f` cuts to 32 bits. */
  predicate Printable(v: Val) {
    match v
    case IntVal(i) => -0x8000_0000_0000_0000 < i < 0x8000_0000_0000_0000
    case HexVal(u) => u <= MAX_U64
    case FloatVal(t) => -0x8000_0000 * 1000 < t < 0x8000_0000 * 1000
    case _ => true
  }

  /** A length passed through a `short` parameter. */
  function ShortLen(n: nat): (r: int)
    ensures -32768 <= r < 32768 && (n - r) % 65536 == 0
  {
    var m := n % 0x1_0000;
    if m < 0x8000 then m else m - 0x1_0000
  }

  /** What `put_string` writes of a string whose length went through a `short`: nothing when that came out
      negative, and only the low 15 bits' worth of a longer one. */
  function Cut(s: Bytes): (r: Bytes)
    ensures |r| < 0x8000 && r <= s
    ensures ShortLen(|s|) >= 0 ==> |r| == ShortLen(|s|)
    ensures ShortLen(|s|) < 0 ==> r == []
    ensures |s| < 0x8000 ==> r == s
  {
    if ShortLen(|s|) < 0 then [] else s[..ShortLen(|s|)]
  }

  /** Value text; the string backends quote strings, the stream backend does not. */
  function ValueText(v: Val, quoted: bool): Bytes {
    match v
    case NullVal => NULL_TEXT
    case BoolVal(u) => if u != 0 then TRUE_TEXT else FALSE_TEXT
    case IntVal(i) => IntText(i)
    case HexVal(u) => HEX_PREFIX + HexText(u)
    case FloatVal(t) => FixedText(t)
    case CharVal(c) => [c]
    case StringVal(s) => if quoted then [QUOTE] + Cut(s) + [QUOTE] else Cut(s)
    case RawVal(s) => Cut(s)
  }

  function Rendered(f: Fmt, quoted: bool): Bytes {
    Cut(f.key) + ValueText(f.val, quoted)
  }

  /** `buffer_t`: a base area, a write cursor, and what has been handed to the output. */
  class Buffer {
    const base: array<Byte>
    var pos: nat
    var out: seq<Bytes>

    ghost predicate Valid()
      reads this`pos
    {
      pos <= base.Length
    }

    ghost function Text(): Bytes
      requires Valid()
      reads this`pos, base
    {
      base[..pos]
    }

    constructor (size: nat)
      ensures Valid() && Text() == [] && out == [] && base.Length == size && fresh(base)
    {
      base := new Byte[size](_ => 0);
      pos, out := 0, [];
    }

    method PutString(s: Bytes)
      requires Valid() && pos + |s| <= base.Length
      modifies this`pos, base
      ensures Valid() && base[..] == Splice(old(base[..]), old(pos), s) && pos == old(pos) + |s|
    {
      PutBytes(base, pos, s);
      pos := pos + |s|;
    }

    /** `logpool_key_string` (sequence numbers are compiled out). */
    method PutKey(id: Bytes)
      requires Valid() && pos + |TRACE_ID + Cut(id)| <= base.Length
      modifies this`pos, base
      ensures Valid() && pos == old(pos) + |TRACE_ID + Cut(id)|
      ensures base[..] == Splice(old(base[..]), old(pos), TRACE_ID + Cut(id))
    {
      ghost var was, p := base[..], pos;
      PutString(TRACE_ID);
      PutString(Cut(id));
      SpliceAppend(was, p, TRACE_ID, Cut(id));
    }

    method EmitValue(v: Val, quoted: bool)
      requires Valid() && Printable(v) && pos + |ValueText(v, quoted)| <= base.Length
      modifies this`pos, base
      ensures Valid() && pos == old(pos) + |ValueText(v, quoted)|
      ensures base[..] == Splice(old(base[..]), old(pos), ValueText(v, quoted))
    {
      hide Splice, IntText, HexText, FixedText;
      ghost var was, p := base[..], pos;
      match v {
        case NullVal => PutString(NULL_TEXT);
        case BoolVal(u) => PutString(if u != 0 then TRUE_TEXT else FALSE_TEXT);
        case IntVal(i) => pos := PutI(base, pos, i);
        case HexVal(u) =>
          PutString(HEX_PREFIX);
          pos := PutHex(base, pos, u);
          SpliceAppend(was, p, HEX_PREFIX, HexText(u));
        case FloatVal(t) => pos := PutF(base, pos, t);
        case CharVal(c) => PutString([c]);
        case StringVal(s) =>
          if quoted {
            PutString([QUOTE]);
            PutString(Cut(s));
            PutString([QUOTE]);
            SpliceAppend(was, p, [QUOTE], Cut(s));
            SpliceAppend(was, p, [QUOTE] + Cut(s), [QUOTE]);
          } else {
            PutString(Cut(s));
          }
        case RawVal(s) => PutString(Cut(s));
      }
    }

    /** One formatter call: the key, then the value. */
    method Emit(f: Fmt, quoted: bool)
      requires Valid() && Printable(f.val) && pos + |Rendered(f, quoted)| <= base.Length
      modifies this`pos, base
      ensures Valid() && pos == old(pos) + |Rendered(f, quoted)|
      ensures base[..] == Splice(old(base[..]), old(pos), Rendered(f, quoted))
    {
      ghost var was, p := base[..], pos;
      PutString(Cut(f.key));
      EmitValue(f.val, quoted);
      SpliceAppend(was, p, Cut(f.key), ValueText(f.val, quoted));
    }
  }

  // ----- The stream backend -----

  /** The wire field a queued format entry should become. */
  function WireField(f: Fmt): Field {
    Field(Cut(f.key), ValueText(f.val, false))
  }

  function WireFields(fmts: seq<Fmt>): (r: seq<Field>)
    ensures |r| == |fmts|
    ensures forall i :: 0 <= i < |fmts| ==> r[i] == WireField(fmts[i])
  {
    seq(|fmts|, i requires 0 <= i < |fmts| => WireField(fmts[i]))
  }

  /** The fields of one record: the trace id first. */
  function RecordFields(id: Bytes, fmts: seq<Fmt>): (r: seq<Field>)
    ensures |r| == 1 + |fmts|
  {
    [Field(TRACE_ID, Cut(id))] + WireFields(fmts)
  }

  function RecordMessage(id: Bytes, fmts: seq<Fmt>): Message {
    Message(0, EVENT_WRITE, RecordFields(id, fmts))
  }

  /** The table entry of a field: the `short` key length, and the distance the cursor moved less that. */
  function LengthsOf(f: Fmt): (r: Bytes)
    ensures |r| == 4
  {
    U16Bytes(|f.key|) + U16Bytes(|Rendered(f, false)| - ShortLen(|f.key|))
  }

  function SentTable(id: Bytes, fmts: seq<Fmt>): (r: Bytes)
    ensures |r| == 4 * (1 + |fmts|)
  {
    if fmts == [] then U16Bytes(|TRACE_ID|) + U16Bytes(|Cut(id)|)
    else SentTable(id, fmts[..|fmts| - 1]) + LengthsOf(fmts[|fmts| - 1])
  }

  /** The bytes `logpool_io_flush` sends for a record. */
  function Sent(id: Bytes, fmts: seq<Fmt>): Bytes {
    Header(0, EVENT_WRITE, 1 + |fmts|) + SentTable(id, fmts) + Data(RecordFields(id, fmts))
  }

  lemma {:induction false} FrontSplice(base: Bytes, header: Bytes, n: nat)
    requires |header| == PROTOCOL_SIZE && PROTOCOL_SIZE + 4 * n <= |base|
    ensures Splice(base, 0, header) == Layout(base, header, [], [], n)
  {
    assert Layout(base, header, [], [], n) == header + base[8..];
  }

  lemma {:induction false} WriteHeaderParts(base: Bytes, size: nat)
    requires PROTOCOL_SIZE + 4 * size <= |base|
    ensures Splice(Splice(Splice(Splice(base, 0, U16Bytes(0)), 2, U16Bytes(0)), 4, U16Bytes(EVENT_WRITE)),
                   6, U16Bytes(size))
      == Layout(base, Header(0, EVENT_WRITE, size), [], [], size)
  {
    hide U16Bytes, Splice;
    SpliceAppend(base, 0, U16Bytes(0), U16Bytes(0));
    SpliceAppend(base, 0, U16Bytes(0) + U16Bytes(0), U16Bytes(EVENT_WRITE));
    SpliceAppend(base, 0, U16Bytes(0) + U16Bytes(0) + U16Bytes(EVENT_WRITE), U16Bytes(size));
    FrontSplice(base, Header(0, EVENT_WRITE, size), size);
  }

  lemma {:induction false} U16IsBytes(v: nat)
    ensures U16Bytes(v) == [v % 256, v / 256 % 256]
  {
  }

  /** `emit_header` of the stream backend clears the crc word. */
  method EmitWriteHeader(buf: array<Byte>, size: nat)
    requires PROTOCOL_SIZE + 4 * size <= buf.Length
    modifies buf
    ensures buf[..] == Layout(old(buf[..]), Header(0, EVENT_WRITE, size), [], [], size)
  {
    hide Splice, Header, U16Bytes;
    ghost var base := buf[..];
    PutU16(buf, 0, 0);
    PutU16(buf, 2, 0);
    PutU16(buf, 4, EVENT_WRITE);
    PutU16(buf, 6, size);
    U16IsBytes(0);
    U16IsBytes(EVENT_WRITE);
    U16IsBytes(size);
    WriteHeaderParts(base, size);
  }

  /** The two table entries of a field, filled in behind its data `more`. */
  method PutLengths(buf: array<Byte>, at: nat, klen: nat, vlen: nat, ghost base: Bytes, ghost header: Bytes,
        ghost table: Bytes, ghost data: Bytes, ghost n: nat, ghost more: Bytes)
    requires |base| == buf.Length && |header| == PROTOCOL_SIZE && at == 8 + |table| && |table| + 4 <= 4 * n
    requires PROTOCOL_SIZE + 4 * n + |data| + |more| <= |base|
    requires buf[..] == Splice(Layout(base, header, table, data, n), 8 + 4 * n + |data|, more)
    modifies buf
    ensures buf[..] == Layout(base, header, table + (U16Bytes(klen) + U16Bytes(vlen)), data + more, n)
  {
    hide Layout, Splice, U16Bytes;
    ghost var s := buf[..];
    PutU16(buf, at, klen);
    PutU16(buf, at + 2, vlen);
    U16IsBytes(klen);
    U16IsBytes(vlen);
    SpliceAppend(s, at, U16Bytes(klen), U16Bytes(vlen));
    PartialData(base, header, table, data, n, more);
    PartialTable(base, header, table, data + more, n, U16Bytes(klen) + U16Bytes(vlen));
  }

  /** The queued field's text is its wire key followed by its wire value. */
  lemma {:induction false} WireText(f: Fmt)
    ensures Rendered(f, false) == WireField(f).key + WireField(f).val
    ensures |Rendered(f, false)| - ShortLen(|f.key|) >= 0
  {
  }

  lemma {:induction false} RecordNone(id: Bytes)
    ensures RecordFields(id, []) == [Field(TRACE_ID, Cut(id))]
    ensures Data(RecordFields(id, [])) == TRACE_ID + Cut(id)
    ensures SentTable(id, []) == U16Bytes(|TRACE_ID|) + U16Bytes(|Cut(id)|)
  {
    assert [] + TRACE_ID + Cut(id) == TRACE_ID + Cut(id);
  }

  /** One more field. */
  lemma {:induction false} RecordNext(id: Bytes, fmts: seq<Fmt>, i: nat)
    requires i < |fmts|
    ensures Data(RecordFields(id, fmts[..i + 1])) == Data(RecordFields(id, fmts[..i])) + Rendered(fmts[i], false)
    ensures SentTable(id, fmts[..i + 1]) == SentTable(id, fmts[..i]) + LengthsOf(fmts[i])
    ensures |Data(RecordFields(id, fmts[..i]))| + |Rendered(fmts[i], false)| <= |Data(RecordFields(id, fmts))|
  {
    hide Rendered, WireField;
    var all := RecordFields(id, fmts);
    assert fmts[..i + 1][..i] == fmts[..i] && fmts[..i + 1][i] == fmts[i];
    assert RecordFields(id, fmts[..i]) == all[..i + 1];
    assert RecordFields(id, fmts[..i + 1]) == all[..i + 2] && all[i + 1] == WireField(fmts[i]);
    WireText(fmts[i]);
    DataStep(all, i + 1);
    DataGrows(all, i + 1);
    var d, f := Data(all[..i + 1]), WireField(fmts[i]);
    assert d + f.key + f.val == d + (f.key + f.val);
  }

  lemma {:induction false} SentLength(id: Bytes, fmts: seq<Fmt>)
    ensures |Sent(id, fmts)| == PROTOCOL_SIZE + 4 * (1 + |fmts|) + |Data(RecordFields(id, fmts))|
    ensures |Data(RecordFields(id, []))| <= |Data(RecordFields(id, fmts))|
  {
    RecordNone(id);
    var all := RecordFields(id, fmts);
    assert all[..1] == RecordFields(id, []);
    DataPrefix(all, 1);
  }

  /** The buffer with table and data of all fields in place. */
  lemma {:induction false} LayoutDone(base: Bytes, id: Bytes, fmts: seq<Fmt>)
    requires |Sent(id, fmts)| <= |base|
    ensures var all, n := RecordFields(id, fmts), 1 + |fmts|;
      && PROTOCOL_SIZE + 4 * n + |Data(all)| == |Sent(id, fmts)|
      && Layout(base, Header(0, EVENT_WRITE, n), SentTable(id, fmts), Data(all), n)[..|Sent(id, fmts)|] ==
        Sent(id, fmts)
  {
    hide Header, SentTable, Data, RecordFields;
  }

  /** `logpool_io_flush`: the table entries are filled in behind the data, from the distance the
      cursor moved; the message goes out and the buffer is reset. */
  method IoFlush(lp: Buffer, id: Bytes, fmts: seq<Fmt>)
    requires lp.Valid() && lp.pos == 0 && forall f :: f in fmts ==> Printable(f.val)
    requires |Sent(id, fmts)| <= lp.base.Length
    modifies lp, lp.base
    ensures lp.Valid() && lp.pos == 0
    ensures lp.out == old(lp.out) + [Sent(id, fmts)]
  {
    hide Layout, Splice, Data, Header, Sent, SentTable, ValueText, Rendered, RecordFields, Printable, ShortLen;
    ghost var base := lp.base[..];
    var size := |fmts| + 1;
    ghost var header := Header(0, EVENT_WRITE, size);
    SentLength(id, fmts);
    RecordNone(id);
    EmitWriteHeader(lp.base, size);
    lp.pos := PROTOCOL_SIZE + size * 4;
    var p := lp.pos;
    lp.PutKey(id);
    PutLengths(lp.base, 8, |TRACE_ID|, lp.pos - p - |TRACE_ID|, base, header, [], [], size, TRACE_ID + Cut(id));
    assert lp.pos - p - |TRACE_ID| == |Cut(id)|;
    assert [] + SentTable(id, []) == SentTable(id, []) && fmts[..0] == [];
    assert [] + (TRACE_ID + Cut(id)) == TRACE_ID + Cut(id);
    for i := 0 to |fmts|
      invariant lp.Valid() && lp.out == old(lp.out)
      invariant lp.pos == PROTOCOL_SIZE + 4 * size + |Data(RecordFields(id, fmts[..i]))|
      invariant lp.base[..] == Layout(base, header, SentTable(id, fmts[..i]), Data(RecordFields(id, fmts[..i])), size)
    {
      RecordNext(id, fmts, i);
      WireText(fmts[i]);
      var start := lp.pos;
      lp.Emit(fmts[i], false);
      PutLengths(lp.base, 8 + 4 * (i + 1), |fmts[i].key|, lp.pos - start - ShortLen(|fmts[i].key|), base, header,
        SentTable(id, fmts[..i]), Data(RecordFields(id, fmts[..i])), size, Rendered(fmts[i], false));
    }
    assert fmts[..|fmts|] == fmts;
    LayoutDone(base, id, fmts);
    lp.out := lp.out + [lp.base[..lp.pos]];
    lp.pos := 0;
  }

  // ----- Round trips -----

  /** No key length comes out negative. */
  predicate KeysShort(fmts: seq<Fmt>) {
    forall f :: f in fmts ==> ShortLen(|f.key|) >= 0
  }

  /** A table entry is the one of the wire field exactly when the key length is not negative. */
  lemma {:induction false} LengthsExact(f: Fmt)
    ensures LengthsOf(f) == U16Bytes(|WireField(f).key|) + U16Bytes(|WireField(f).val|) <==> ShortLen(|f.key|) >= 0
  {
    hide U16Bytes;
    U16Mod(|f.key|);
    WireText(f);
    var w := WireField(f);
    if ShortLen(|f.key|) < 0 {
      assert w.key == [];
      assert LengthsOf(f)[..2] == U16Bytes(|f.key|);
      assert (U16Bytes(|w.key|) + U16Bytes(|w.val|))[..2] == U16Bytes(0);
    }
  }

  lemma {:induction false} SentTableExact(id: Bytes, fmts: seq<Fmt>)
    ensures SentTable(id, fmts) == Table(RecordFields(id, fmts)) <==> KeysShort(fmts)
  {
    hide LengthsOf, WireField, U16Bytes, ShortLen;
    if fmts == [] {
      RecordNone(id);
      TableSnoc([], Field(TRACE_ID, Cut(id)));
      NoData();
      assert [] + [Field(TRACE_ID, Cut(id))] == [Field(TRACE_ID, Cut(id))];
    } else {
      var n := |fmts| - 1;
      var front, last := fmts[..n], WireField(fmts[n]);
      assert RecordFields(id, fmts) == RecordFields(id, front) + [last];
      TableSnoc(RecordFields(id, front), last);
      SentTableExact(id, front);
      LengthsExact(fmts[n]);
      SameParts(SentTable(id, front), LengthsOf(fmts[n]), Table(RecordFields(id, front)),
        U16Bytes(|last.key|) + U16Bytes(|last.val|));
      assert fmts == front + [fmts[n]];
    }
  }

  /** What is sent is the encoded record exactly when no key length comes out negative. */
  lemma {:induction false} SentIsEncodeIff(id: Bytes, fmts: seq<Fmt>)
    ensures Sent(id, fmts) == Encode(RecordMessage(id, fmts)) <==> KeysShort(fmts)
  {
    hide Header, Table, SentTable, Data, KeysShort;
    SentTableExact(id, fmts);
    var h, d := Header(0, EVENT_WRITE, 1 + |fmts|), Data(RecordFields(id, fmts));
    SameParts(h + SentTable(id, fmts), d, h + Table(RecordFields(id, fmts)), d);
    SameParts(h, SentTable(id, fmts), h, Table(RecordFields(id, fmts)));
  }

  // ----- What the texts say -----

  /** A sign for negative numbers, an integral part without superfluous zeros, a point and three digits, which
      together are `t` thousandths. */
  predicate ReadsAs(text: Bytes, t: int) {
    && (t < 0 ==> 0 < |text| && text[0] == 45)
    && var body := if t < 0 then text[1..] else text;
      && 5 <= |body| && body[|body| - 4] == 46
      && Canonical(body[..|body| - 4]) && AllDigits(body[|body| - 3..])
      && 1000 * ParseDec(body[..|body| - 4]) + ParseDec(body[|body| - 3..]) == if t < 0 then -t else t
  }

  lemma {:induction false} FixedReads(t: int)
    ensures ReadsAs(FixedText(t), t)
  {
    hide Dec, Thousandths, ParseDec;
    FixedMeans(t);
    var m := if t < 0 then -t else t;
    var body := if t < 0 then FixedText(t)[1..] else FixedText(t);
    assert body == Dec(m / 1000) + [DOT] + Thousandths(m % 1000);
    assert body[..|body| - 4] == Dec(m / 1000) && body[|body| - 3..] == Thousandths(m % 1000);
  }

  /** The text of every value, read back or byte for byte. */
  lemma {:induction false} ValueMeans(v: Val, quoted: bool)
    requires Printable(v)
    ensures var text := ValueText(v, quoted);
      match v
      case NullVal => text == [110, 117, 108, 108, 0]
      case BoolVal(u) => text == if u == 0 then [102, 97, 108, 115, 101] else [116, 114, 117, 101]
      case IntVal(i) => ParseInt(text) == i && Canonical(if i < 0 then text[1..] else text)
      case HexVal(u) =>
        2 < |text| && text[..2] == [48, 120] && ParseHex(text[2..]) == u && (u > 0 ==> text[2] != 48)
      case FloatVal(t) => ReadsAs(text, t)
      case CharVal(c) => text == [c]
      case StringVal(s) => text == if quoted then [39] + Cut(s) + [39] else Cut(s)
      case RawVal(s) => text == Cut(s)
  {
    match v {
      case IntVal(i) => IntRoundTrip(i);
      case HexVal(u) =>
        HexRoundTrip(u);
        assert ValueText(v, quoted)[2..] == HexText(u);
      case FloatVal(t) => FixedReads(t);
      case _ =>
    }
  }

  // ----- Text lengths -----

  lemma {:induction false} DecLength(v: nat, k: nat)
    requires k > 0 && v < Pow2(3 * k)
    ensures |Dec(v)| <= k
  {
    if v >= 10 {
      assert Pow2(3) == 8;
      Pow2Sum(3 * (k - 1), 3);
      DecLength(v / 10, k - 1);
    }
  }

  lemma {:induction false} HexLength(v: nat, k: nat)
    requires k > 0 && v < Pow2(3 * k)
    ensures |HexText(v)| <= k
  {
    if v >= 16 {
      assert Pow2(3) == 8;
      Pow2Sum(3 * (k - 1), 3);
      HexLength(v / 16, k - 1);
    }
  }

  lemma {:induction false} Pow2Eight()
    ensures Pow2(8) == 0x100
  {
  }

  lemma {:induction false} WordBound(v: nat)
    requires v <= MAX_U64
    ensures v < Pow2(3 * 22)
  {
    Pow2Eight();
    hide Pow2;
    Pow2Sum(8, 8);
    Pow2Sum(16, 16);
    Pow2Sum(32, 32);
    Pow2Monotone(64, 66);
  }

  /** Every value a formatter prints fits a 16-bit length. */
  lemma {:induction false} ValueLength(v: Val, quoted: bool)
    requires Printable(v)
    ensures |ValueText(v, quoted)| < 0x1_0000
  {
    hide Dec, HexText, Pow2;
    match v {
      case IntVal(i) =>
        WordBound(if i < 0 then -i else i);
        DecLength(if i < 0 then -i else i, 22);
      case HexVal(u) =>
        WordBound(u);
        HexLength(u, 22);
      case FloatVal(t) =>
        WordBound((if t < 0 then -t else t) / 1000);
        DecLength((if t < 0 then -t else t) / 1000, 22);
      case _ =>
    }
  }

  // ----- The walk over what is sent -----

  lemma {:induction false} EntryStored(k: nat, v: nat, front: Bytes)
    ensures var t := front + (U16Bytes(k) + U16Bytes(v));
      U16At(t, |front|) == k % 0x1_0000 && U16At(t, |front| + 2) == v % 0x1_0000
  {
    hide U16At, U16Bytes;
    U16Stored(k, front, U16Bytes(v));
    U16Stored(v, front + U16Bytes(k), []);
    assert front + (U16Bytes(k) + U16Bytes(v)) == front + U16Bytes(k) + U16Bytes(v);
    assert front + (U16Bytes(k) + U16Bytes(v)) == front + U16Bytes(k) + U16Bytes(v) + [];
  }

  /** The lengths in table entry `e`, as read back. */
  lemma {:induction false} SentTableAt(id: Bytes, fmts: seq<Fmt>, e: nat)
    requires e <= |fmts|
    ensures e == 0 ==> U16At(SentTable(id, fmts), 0) == |TRACE_ID| && U16At(SentTable(id, fmts), 2) == |Cut(id)|
    ensures e > 0 ==>
      && |Rendered(fmts[e - 1], false)| - ShortLen(|fmts[e - 1].key|) >= 0
      && U16At(SentTable(id, fmts), 4 * e) == |fmts[e - 1].key| % 0x1_0000
      && U16At(SentTable(id, fmts), 4 * e + 2)
         == (|Rendered(fmts[e - 1], false)| - ShortLen(|fmts[e - 1].key|)) % 0x1_0000
  {
    hide U16At, U16Bytes, Rendered, ShortLen;
    var t := SentTable(id, fmts);
    if fmts == [] {
      EntryStored(|TRACE_ID|, |Cut(id)|, []);
      assert [] + (U16Bytes(|TRACE_ID|) + U16Bytes(|Cut(id)|)) == t;
    } else {
      var n := |fmts| - 1;
      var front, f := SentTable(id, fmts[..n]), fmts[n];
      WireText(f);
      if e <= n {
        SentTableAt(id, fmts[..n], e);
        U16AtPrefix(front, LengthsOf(f), 4 * e);
        U16AtPrefix(front, LengthsOf(f), 4 * e + 2);
      } else {
        EntryStored(|f.key|, |Rendered(f, false)| - ShortLen(|f.key|), front);
      }
    }
  }

  /** An entry announces its own field exactly when the key length is not negative. */
  lemma {:induction false} EntryExact(f: Fmt)
    requires Printable(f.val)
    ensures |Rendered(f, false)| - ShortLen(|f.key|) >= 0
    ensures ShortLen(|f.key|) >= 0 <==> |f.key| % 0x1_0000 == |WireField(f).key|
    ensures ShortLen(|f.key|) >= 0 ==>
      (|Rendered(f, false)| - ShortLen(|f.key|)) % 0x1_0000 == |WireField(f).val|
  {
    ValueLength(f.val, false);
  }

  /** The queued fields whose table entries a walk can reach. */
  function Reached(fmts: seq<Fmt>): seq<Fmt> {
    if |fmts| < 0x8000 then fmts else fmts[..0x7fff]
  }

  lemma {:induction false} SentEntry(id: Bytes, fmts: seq<Fmt>, e: nat)
    requires e <= |fmts| && e < 0x8000 && forall f :: f in fmts ==> Printable(f.val)
    ensures (e > 0 ==> ShortLen(|fmts[e - 1].key|) >= 0) <==>
      U16At(SentTable(id, fmts), 4 * e) == |RecordFields(id, fmts)[e].key|
      && U16At(SentTable(id, fmts), 4 * e + 2) == |RecordFields(id, fmts)[e].val|
  {
    hide U16At, SentTable, Rendered, ShortLen, WireField, Printable;
    SentTableAt(id, fmts, e);
    if e > 0 {
      assert fmts[e - 1] in fmts;
      EntryExact(fmts[e - 1]);
      assert RecordFields(id, fmts)[e] == WireField(fmts[e - 1]);
    }
  }

  lemma {:induction false} ReachedShort(fmts: seq<Fmt>)
    ensures KeysShort(Reached(fmts)) <==>
      forall j :: 0 <= j < |fmts| && j < 0x7fff ==> ShortLen(|fmts[j].key|) >= 0
    ensures KeysShort(fmts) ==> KeysShort(Reached(fmts))
  {
    hide ShortLen;
    var r := Reached(fmts);
    assert forall j :: 0 <= j < |fmts| && j < 0x7fff ==> fmts[j] == r[j] && r[j] in r;
    assert forall f :: f in r ==> exists j :: 0 <= j < |r| && r[j] == f;
  }

  lemma {:induction false} SentAnnouncesIff(id: Bytes, fmts: seq<Fmt>)
    requires |fmts| < 0xffff && forall f :: f in fmts ==> Printable(f.val)
    ensures Announces(SentTable(id, fmts), RecordFields(id, fmts))
      <==> KeysShort(Reached(fmts)) && Repeats(RecordFields(id, fmts))
  {
    hide U16At, SentTable, ShortLen, KeysShort, RecordFields, Entry, Printable, Reached;
    var t, all := SentTable(id, fmts), RecordFields(id, fmts);
    ReachedShort(fmts);
    if Announces(t, all) {
      forall j | 0 <= j < |fmts| && j < 0x7fff
        ensures ShortLen(|fmts[j].key|) >= 0
      {
        assert Entry(j + 1) == j + 1 && all[j + 1] == all[j + 1];
        SentEntry(id, fmts, j + 1);
      }
      forall i | 0x8000 <= i < |all|
        ensures |all[i].key| == |all[i - 0x8000].key| && |all[i].val| == |all[i - 0x8000].val|
      {
        assert Entry(i) == i - 0x8000 && Entry(i - 0x8000) == i - 0x8000;
      }
    }
    if KeysShort(Reached(fmts)) && Repeats(all) {
      forall i | 0 <= i < |all|
        ensures U16At(t, 4 * Entry(i)) == |all[i].key| && U16At(t, 4 * Entry(i) + 2) == |all[i].val|
      {
        var e := Entry(i);
        assert e > 0 ==> ShortLen(|fmts[e - 1].key|) >= 0;
        SentEntry(id, fmts, e);
      }
    }
  }

  lemma {:induction false} PrintableEncodable(id: Bytes, fmts: seq<Fmt>)
    requires |fmts| < 0xffff && forall f :: f in fmts ==> Printable(f.val)
    ensures Encodable(RecordMessage(id, fmts))
  {
    hide Printable;
    var all := RecordFields(id, fmts);
    forall f | f in all
      ensures Fits(f)
    {
      var i :| 0 <= i < |all| && all[i] == f;
      if i > 0 {
        assert fmts[i - 1] in fmts;
        ValueLength(fmts[i - 1].val, false);
      }
    }
  }

  lemma {:induction false} SentStart(id: Bytes, fmts: seq<Fmt>)
    ensures |Sent(id, fmts)| >= 8 && Sent(id, fmts)[..4] == [0, 0, 0, 0]
  {
    hide SentTable, Data;
    assert U32Bytes(0) == [0, 0, 0, 0];
    assert Header(0, EVENT_WRITE, 1 + |fmts|)[..4] == [0, 0, 0, 0];
  }

  /** The walk over a flushed record recovers the trace id and every rendered field exactly when the field
      count fits 16 bits, no key length within reach of the walk comes out negative, and lengths repeat
      from field 32768 on. */
  lemma {:induction false} RecordRoundTrip(id: Bytes, fmts: seq<Fmt>)
    requires forall f :: f in fmts ==> Printable(f.val)
    ensures var e := Sent(id, fmts);
      WellFormed(e) && Fields(e) == [Field([84, 114, 97, 99, 101, 73, 68], Cut(id))] + WireFields(fmts) <==>
        |fmts| < 0xffff && KeysShort(Reached(fmts)) && Repeats(RecordFields(id, fmts))
    ensures |Sent(id, fmts)| >= 8 && Protocol(Sent(id, fmts)) == 1 && Sent(id, fmts)[..4] == [0, 0, 0, 0]
    ensures |WireFields(fmts)| == |fmts|
    ensures forall i :: 0 <= i < |fmts| ==>
      WireFields(fmts)[i] == Field(Cut(fmts[i].key), ValueText(fmts[i].val, false))
  {
    hide WellFormed, KeysShort, Repeats, SentTable, Header, Data, Reached, Announces, Printable;
    var t, all := SentTable(id, fmts), RecordFields(id, fmts);
    assert Sent(id, fmts) == Assemble(0, EVENT_WRITE, t, all);
    AssembledHeader(0, EVENT_WRITE, t, all);
    SentStart(id, fmts);
    if |fmts| < 0xffff {
      SentAnnouncesIff(id, fmts);
      WalkIff(0, EVENT_WRITE, t, all);
    }
  }

  /** Where no key length comes out negative the receiver accepts a record whole exactly when it fits the
      buffer; then it also walks back to its fields. */
  lemma {:induction false} RecordAccepted(id: Bytes, fmts: seq<Fmt>, rest: Bytes)
    requires KeysShort(fmts) && forall f :: f in fmts ==> Printable(f.val)
    ensures var e := Sent(id, fmts);
      && (Frame(e + rest) == Some(|e|) <==> |e| <= IO_BUFFER_SIZE)
      && (|e| <= IO_BUFFER_SIZE ==> WellFormed(e))
      && (|e| <= IO_BUFFER_SIZE ==> Fields(e) == [Field(TRACE_ID, Cut(id))] + WireFields(fmts))
  {
    hide Encode, Sent, Encodable, WellFormed, Fields, KeysShort, Frame, Repeats, Printable, Reached;
    SentLength(id, fmts);
    SentIsEncodeIff(id, fmts);
    if |fmts| < 0xffff {
      PrintableEncodable(id, fmts);
      FrameOfEncodeIff(RecordMessage(id, fmts), rest);
      HeaderFields(RecordMessage(id, fmts));
    }
    if |Sent(id, fmts)| <= IO_BUFFER_SIZE {
      ReachedShort(fmts);
      ShortRepeats(RecordFields(id, fmts));
      RecordRoundTrip(id, fmts);
    }
  }

  /** 32768 one-byte keys and characters: no length is negative and every number fits its slot, yet the walk
      takes the lengths of the trace id for the last field and does not recover the record. */
  lemma {:induction false} LongRecordLost(id: Bytes)
    ensures var fmts := seq(0x8000, (_: nat) => Fmt([97], CharVal(98)));
      && KeysShort(fmts) && Encodable(RecordMessage(id, fmts))
      && !(WellFormed(Sent(id, fmts)) && Fields(Sent(id, fmts)) == RecordFields(id, fmts))
  {
    hide Sent, WellFormed, Fields, Encodable, Reached;
    var fmts := seq(0x8000, (_: nat) => Fmt([97], CharVal(98)));
    PrintableEncodable(id, fmts);
    RecordRoundTrip(id, fmts);
    var all := RecordFields(id, fmts);
    assert all[0x8000] == WireField(fmts[0x7fff]) && all[0] == Field(TRACE_ID, Cut(id));
    assert |all[0x8000].key| == 1 && |all[0x8000 - 0x8000].key| == 7;
  }

  /** A record as handed to the stream backend. */
  datatype Rec = Rec(id: Bytes, fmts: seq<Fmt>)

  function MessagesOf(recs: seq<Rec>): (r: seq<Message>)
    ensures |r| == |recs|
    ensures forall i :: 0 <= i < |recs| ==> r[i] == RecordMessage(recs[i].id, recs[i].fmts)
  {
    seq(|recs|, i requires 0 <= i < |recs| => RecordMessage(recs[i].id, recs[i].fmts))
  }

  /** The bytes of several records sent one after the other. */
  function SentAll(recs: seq<Rec>): Bytes {
    if recs == [] then [] else Sent(recs[0].id, recs[0].fmts) + SentAll(recs[1..])
  }

  lemma {:induction false} SentAllIsEncodeAll(recs: seq<Rec>)
    requires forall r :: r in recs ==> KeysShort(r.fmts)
    ensures SentAll(recs) == EncodeAll(MessagesOf(recs))
  {
    hide Sent, Encode, KeysShort;
    if recs != [] {
      assert recs[0] in recs;
      SentIsEncodeIff(recs[0].id, recs[0].fmts);
      SentAllIsEncodeAll(recs[1..]);
      assert MessagesOf(recs)[1..] == MessagesOf(recs[1..]);
    }
  }

  lemma {:induction false} EncodeLength(m: Message)
    ensures |Encode(m)| >= PROTOCOL_SIZE + 4 * |m.fields|
  {
  }

  /** From client to server: records that fit the receive buffer, sent one after the other and cut into
      arrivals anywhere, are executed one by one, in order, and the walk over each executed message
      recovers the record. */
  lemma {:induction false} RecordsArrive(recs: seq<Rec>, chunks: seq<Bytes>)
    requires forall r :: r in recs ==> KeysShort(r.fmts)
    requires forall m :: m in MessagesOf(recs) ==> Encodable(m) && |Encode(m)| <= IO_BUFFER_SIZE
    requires |Concat(chunks)| <= |SentAll(recs)|
    requires Concat(chunks) == SentAll(recs)[..|Concat(chunks)|]
    ensures var events, k := Serve([], chunks).events, Complete(MessagesOf(recs), |Concat(chunks)|);
      && |events| == k <= |recs|
      && (forall i :: 0 <= i < k ==> events[i].Executed? && WellFormed(events[i].msg))
      && (forall i :: 0 <= i < k ==>
            Fields(events[i].msg) ==
            [Field([84, 114, 97, 99, 101, 73, 68], Cut(recs[i].id))] + WireFields(recs[i].fmts))
  {
    hide Encode, Serve, Complete, EncodeAll, Encodable, WellFormed, Concat, SentAll, KeysShort, Repeats;
    SentAllIsEncodeAll(recs);
    var msgs := MessagesOf(recs);
    forall m | m in msgs
      ensures Sendable(m)
    {
    }
    ServeMessages(msgs, chunks);
    var k := Complete(msgs, |Concat(chunks)|);
    forall i | 0 <= i < k
      ensures EventOf(msgs[i]).Executed? && WellFormed(EventOf(msgs[i]).msg)
      ensures Fields(EventOf(msgs[i]).msg) == [Field(TRACE_ID, Cut(recs[i].id))] + WireFields(recs[i].fmts)
    {
      assert msgs[i] in msgs;
      EncodeLength(msgs[i]);
      WalkOfEncode(msgs[i]);
    }
  }
}
