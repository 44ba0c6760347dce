/** The wire format of include/protocol.h: an eight-byte header (crc32, protocol, logsize), a table of
    `logsize` pairs of 16-bit lengths, then the keys and values themselves. Integers are little-endian. */
module Wire {
  import opened Bits

  const PROTOCOL_SIZE: nat := 8
  const PROTOCOL_FIELDS: nat := 4
  const EVENT_WRITE: nat := 1
  const EVENT_READ: nat := 2
  const EVENT_QUIT: nat := 3

  datatype Field = Field(key: Bytes, val: Bytes)
  datatype Message = Message(crc: nat, protocol: nat, fields: seq<Field>)

  // ----- Encoding -----

  /** A 16-bit store keeps the low 16 bits. */
  function U16Bytes(v: nat): (r: Bytes)
    ensures |r| == 2
  {
    [v % 256, v / 256 % 256]
  }

  function U32Bytes(v: nat): (r: Bytes)
    ensures |r| == 4
  {
    U16Bytes(v) + U16Bytes(v / 0x1_0000)
  }

  function Table(fields: seq<Field>): (r: Bytes)
    ensures |r| == 4 * |fields|
  {
    if fields == [] then []
    else
      var n := |fields| - 1;
      Table(fields[..n]) + U16Bytes(|fields[n].key|) + U16Bytes(|fields[n].val|)
  }

  function Data(fields: seq<Field>): Bytes {
    if fields == [] then []
    else
      var n := |fields| - 1;
      Data(fields[..n]) + fields[n].key + fields[n].val
  }

  function Header(crc: nat, protocol: nat, logsize: nat): (r: Bytes)
    ensures |r| == PROTOCOL_SIZE
  {
    U32Bytes(crc) + U16Bytes(protocol) + U16Bytes(logsize)
  }

  function Encode(m: Message): (r: Bytes)
    ensures |r| == PROTOCOL_SIZE + 4 * |m.fields| + |Data(m.fields)|
  {
    Header(m.crc, m.protocol, |m.fields|) + Table(m.fields) + Data(m.fields)
  }

  predicate Fits(f: Field) {
    |f.key| < 0x1_0000 && |f.val| < 0x1_0000
  }

  /** Every number of the message fits its slot. */
  predicate Encodable(m: Message) {
    && m.crc < 0x1_0000_0000 && m.protocol < 0x1_0000 && |m.fields| < 0x1_0000
    && forall f :: f in m.fields ==> Fits(f)
  }

  // ----- The field walk -----

  function U16At(b: Bytes, off: nat): (r: nat)
    requires off + 2 <= |b|
    ensures r < 0x1_0000
  {
    b[off] as int + 256 * (b[off + 1] as int)
  }

  function LogSize(b: Bytes): (r: nat)
    requires PROTOCOL_SIZE <= |b|
    ensures r < 0x1_0000
  {
    U16At(b, 6)
  }

  function Protocol(b: Bytes): (r: nat)
    requires PROTOCOL_SIZE <= |b|
    ensures r < 0x1_0000
  {
    U16At(b, 4)
  }

  function DataStart(b: Bytes): nat
    requires PROTOCOL_SIZE <= |b|
  {
    PROTOCOL_SIZE + 4 * LogSize(b)
  }

  /** `log_get_length(log, idx)`. */
  function LengthAt(b: Bytes, idx: nat): (r: nat)
    requires 2 * (PROTOCOL_FIELDS + idx) + 2 <= |b|
    ensures r < 0x1_0000
  {
    U16At(b, 2 * (PROTOCOL_FIELDS + idx))
  }

  /** The table entry of field `i`. */
  function TableKey(b: Bytes, i: nat): (r: nat)
    requires PROTOCOL_SIZE + 4 * i + 4 <= |b|
    ensures r < 0x1_0000
  {
    LengthAt(b, i * 2 + 0)
  }

  function TableVal(b: Bytes, i: nat): (r: nat)
    requires PROTOCOL_SIZE + 4 * i + 4 <= |b|
    ensures r < 0x1_0000
  {
    LengthAt(b, i * 2 + 1)
  }

  /** The lengths the walk uses for field `i`: `log_get_length(log, i*2+0)` and `(log, i*2+1)`, whose index
      is a `uint16_t`. */
  function KLen(b: Bytes, i: nat): (r: nat)
    requires PROTOCOL_SIZE + 4 * i + 4 <= |b|
    ensures r < 0x1_0000
  {
    LengthAt(b, (i * 2 + 0) % 0x1_0000)
  }

  function VLen(b: Bytes, i: nat): (r: nat)
    requires PROTOCOL_SIZE + 4 * i + 4 <= |b|
    ensures r < 0x1_0000
  {
    LengthAt(b, (i * 2 + 1) % 0x1_0000)
  }

  /** The table entry the walk reads for field `i`. */
  function Entry(i: nat): (e: nat)
    ensures e <= i && (i < 0x8000 ==> e == i) && (0x8000 <= i < 0x1_0000 ==> e == i - 0x8000)
  {
    i % 0x8000
  }

  lemma {:induction false} WalkEntry(b: Bytes, i: nat)
    requires PROTOCOL_SIZE + 4 * i + 4 <= |b|
    ensures KLen(b, i) == TableKey(b, Entry(i)) && VLen(b, i) == TableVal(b, Entry(i))
  {
    var q, r := i / 0x8000, i % 0x8000;
    DivModUnique(i * 2, 0x1_0000, q, r * 2);
    DivModUnique(i * 2 + 1, 0x1_0000, q, r * 2 + 1);
  }

  /** Where the walk of `log_iterator` stands after `i` fields. */
  function Offset(b: Bytes, i: nat): (r: nat)
    requires PROTOCOL_SIZE + 4 * i <= |b|
  {
    if i == 0 then DataStart(b) else Offset(b, i - 1) + KLen(b, i - 1) + VLen(b, i - 1)
  }

  lemma {:induction false} OffsetMonotone(b: Bytes, i: nat, j: nat)
    requires i <= j && PROTOCOL_SIZE + 4 * j <= |b|
    ensures DataStart(b) <= Offset(b, i) <= Offset(b, j)
    decreases j
  {
    if i < j {
      OffsetMonotone(b, i, j - 1);
    } else if j > 0 {
      OffsetMonotone(b, j - 1, j - 1);
    }
  }

  /** The walk stays inside the message and ends exactly at its end. */
  predicate WellFormed(b: Bytes) {
    && PROTOCOL_SIZE <= |b|
    && PROTOCOL_SIZE + 4 * LogSize(b) <= |b|
    && Offset(b, LogSize(b)) == |b|
  }

  lemma {:induction false} OffsetStep(b: Bytes, i: nat)
    requires PROTOCOL_SIZE + 4 * i + 4 <= |b|
    ensures Offset(b, i + 1) == Offset(b, i) + KLen(b, i) + VLen(b, i)
    ensures DataStart(b) <= Offset(b, i)
  {
    OffsetMonotone(b, i, i);
  }

  lemma {:induction false} InBounds(b: Bytes, i: nat)
    requires WellFormed(b) && i < LogSize(b)
    ensures DataStart(b) <= Offset(b, i) && Offset(b, i) + KLen(b, i) + VLen(b, i) <= |b|
  {
    OffsetStep(b, i);
    OffsetMonotone(b, i + 1, LogSize(b));
  }

  lemma {:induction false} OffsetStart(b: Bytes)
    requires PROTOCOL_SIZE <= |b|
    ensures Offset(b, 0) == DataStart(b)
  {
  }

  function FieldAt(b: Bytes, i: nat): (r: Field)
    requires WellFormed(b) && i < LogSize(b)
    ensures |r.key| == KLen(b, i) && |r.val| == VLen(b, i)
  {
    InBounds(b, i);
    var off, klen, vlen := Offset(b, i), KLen(b, i), VLen(b, i);
    Field(b[off..off + klen], b[off + klen..off + klen + vlen])
  }

  function Fields(b: Bytes): (r: seq<Field>)
    requires WellFormed(b)
  {
    seq(LogSize(b), i requires 0 <= i < LogSize(b) => FieldAt(b, i))
  }

  // ----- Round trips -----

  lemma {:induction false} U16RoundTrip(v: nat, a: Bytes, c: Bytes)
    requires v < 0x1_0000
    ensures U16At(a + U16Bytes(v) + c, |a|) == v
  {
    var b := a + U16Bytes(v) + c;
    assert b[|a|] == v % 256 && b[|a| + 1] == v / 256 % 256;
  }

  lemma {:induction false} U16AtPrefix(a: Bytes, c: Bytes, off: nat)
    requires off + 2 <= |a|
    ensures U16At(a + c, off) == U16At(a, off)
  {
  }

  lemma {:induction false} U16Mod(v: nat)
    ensures U16Bytes(v) == U16Bytes(v % 0x1_0000)
    ensures v % 0x1_0000 != 0 ==> U16Bytes(v) != U16Bytes(0)
  {
    var q, r := v / 0x1_0000, v % 0x1_0000;
    var hi, lo := r / 256, r % 256;
    DivModUnique(v, 256, 256 * q + hi, lo);
    DivModUnique(256 * q + hi, 256, q, hi);
    DivModUnique(hi, 256, 0, hi);
  }

  /** Reading back any stored number gives its low 16 bits. */
  lemma {:induction false} U16Stored(v: nat, a: Bytes, c: Bytes)
    ensures U16At(a + U16Bytes(v) + c, |a|) == v % 0x1_0000
  {
    hide U16At, U16Bytes;
    U16Mod(v);
    U16RoundTrip(v % 0x1_0000, a, c);
  }

  lemma {:induction false} SameParts<T>(a: seq<T>, b: seq<T>, c: seq<T>, d: seq<T>)
    requires |a| == |c|
    ensures a + b == c + d <==> a == c && b == d
  {
    if a + b == c + d {
      assert a == (a + b)[..|a|] == c && b == (a + b)[|a|..] == d;
    }
  }

  // ----- Messages with any length table -----

  function Assemble(crc: nat, protocol: nat, table: Bytes, fields: seq<Field>): Bytes {
    Header(crc, protocol, |fields|) + table + Data(fields)
  }

  lemma {:induction false} AssembledHeader(crc: nat, protocol: nat, table: Bytes, fields: seq<Field>)
    requires protocol < 0x1_0000
    ensures var b := Assemble(crc, protocol, table, fields);
      Protocol(b) == protocol && LogSize(b) == |fields| % 0x1_0000
  {
    var tail := table + Data(fields);
    var c := U32Bytes(crc);
    U16Stored(protocol, c, U16Bytes(|fields|) + tail);
    U16Stored(|fields|, c + U16Bytes(protocol), tail);
    var b := Assemble(crc, protocol, table, fields);
    assert b == c + U16Bytes(protocol) + (U16Bytes(|fields|) + tail);
    assert b == c + U16Bytes(protocol) + U16Bytes(|fields|) + tail;
  }

  lemma {:induction false} HeaderFields(m: Message)
    requires Encodable(m)
    ensures Protocol(Encode(m)) == m.protocol && LogSize(Encode(m)) == |m.fields|
  {
    AssembledHeader(m.crc, m.protocol, Table(m.fields), m.fields);
  }

  lemma {:induction false} TablePrefix(fields: seq<Field>, i: nat)
    requires i <= |fields|
    ensures Table(fields)[..4 * i] == Table(fields[..i])
    decreases |fields|
  {
    if i < |fields| {
      var n := |fields| - 1;
      TablePrefix(fields[..n], i);
      assert fields[..n][..i] == fields[..i];
    } else {
      assert fields[..i] == fields;
    }
  }

  lemma {:induction false} TableAt(fields: seq<Field>, i: nat)
    requires i < |fields| && Fits(fields[i])
    ensures U16At(Table(fields), 4 * i) == |fields[i].key|
    ensures U16At(Table(fields), 4 * i + 2) == |fields[i].val|
  {
    var t := Table(fields);
    TablePrefix(fields, i + 1);
    assert fields[..i + 1][..i] == fields[..i];
    var head := Table(fields[..i]);
    var k, v := U16Bytes(|fields[i].key|), U16Bytes(|fields[i].val|);
    assert t == head + k + v + t[4 * (i + 1)..];
    U16RoundTrip(|fields[i].key|, head, v + t[4 * (i + 1)..]);
    assert t == head + k + (v + t[4 * (i + 1)..]);
    U16RoundTrip(|fields[i].val|, head + k, t[4 * (i + 1)..]);
  }

  lemma {:induction false} SliceAt(b: Bytes, start: nat, t: Bytes, off: nat)
    requires start + |t| <= |b| && b[start..start + |t|] == t && off + 2 <= |t|
    ensures U16At(b, start + off) == U16At(t, off)
  {
    assert b[start + off] == t[off] && b[start + off + 1] == t[off + 1];
  }

  lemma {:induction false} AssembledLengths(crc: nat, protocol: nat, table: Bytes, fields: seq<Field>, i: nat)
    requires |table| == 4 * |fields| && i < |fields|
    ensures var b := Assemble(crc, protocol, table, fields);
      TableKey(b, i) == U16At(table, 4 * i) && TableVal(b, i) == U16At(table, 4 * i + 2)
  {
    hide U16At;
    var b := Assemble(crc, protocol, table, fields);
    assert b[8..8 + |table|] == table;
    SliceAt(b, 8, table, 4 * i);
    SliceAt(b, 8, table, 4 * i + 2);
  }

  lemma {:induction false} EncodedLengths(m: Message, i: nat)
    requires Encodable(m) && i < |m.fields|
    ensures TableKey(Encode(m), i) == |m.fields[i].key|
    ensures TableVal(Encode(m), i) == |m.fields[i].val|
  {
    hide U16At, Table, TableKey, TableVal;
    TableAt(m.fields, i);
    AssembledLengths(m.crc, m.protocol, Table(m.fields), m.fields, i);
  }

  /** The entries the walk reads are the lengths of the fields. */
  ghost predicate Announces(table: Bytes, fields: seq<Field>)
    requires |table| == 4 * |fields|
  {
    forall i :: 0 <= i < |fields| ==>
      U16At(table, 4 * Entry(i)) == |fields[i].key| && U16At(table, 4 * Entry(i) + 2) == |fields[i].val|
  }

  lemma {:induction false} AssembledWalk(crc: nat, protocol: nat, table: Bytes, fields: seq<Field>, i: nat)
    requires |table| == 4 * |fields| && i < |fields|
    ensures var b := Assemble(crc, protocol, table, fields);
      KLen(b, i) == U16At(table, 4 * Entry(i)) && VLen(b, i) == U16At(table, 4 * Entry(i) + 2)
  {
    hide U16At, KLen, VLen, TableKey, TableVal;
    WalkEntry(Assemble(crc, protocol, table, fields), i);
    AssembledLengths(crc, protocol, table, fields, Entry(i));
  }

  lemma {:induction false} DataPrefix(fields: seq<Field>, i: nat)
    requires i <= |fields|
    ensures |Data(fields[..i])| <= |Data(fields)|
    ensures Data(fields)[..|Data(fields[..i])|] == Data(fields[..i])
    decreases |fields|
  {
    if i < |fields| {
      var n := |fields| - 1;
      DataPrefix(fields[..n], i);
      assert fields[..n][..i] == fields[..i];
    } else {
      assert fields[..i] == fields;
    }
  }

  /** Reading two adjacent pieces out of the middle of a sequence. */
  lemma {:induction false} Pieces(s: Bytes, pre: Bytes, x: Bytes, y: Bytes, post: Bytes)
    requires s == pre + x + y + post
    ensures s[|pre|..|pre| + |x|] == x
    ensures s[|pre| + |x|..|pre| + |x| + |y|] == y
  {
  }

  lemma {:induction false} DataStep(fields: seq<Field>, i: nat)
    requires i < |fields|
    ensures Data(fields[..i + 1]) == Data(fields[..i]) + fields[i].key + fields[i].val
  {
    assert fields[..i + 1][..i] == fields[..i];
  }

  lemma {:induction false} AssembledOffset(crc: nat, protocol: nat, table: Bytes, fields: seq<Field>, i: nat)
    requires |table| == 4 * |fields| && |fields| < 0x1_0000 && Announces(table, fields) && i <= |fields|
    requires protocol < 0x1_0000
    ensures Offset(Assemble(crc, protocol, table, fields), i) == PROTOCOL_SIZE + 4 * |fields| + |Data(fields[..i])|
  {
    hide U16At, KLen, VLen;
    AssembledHeader(crc, protocol, table, fields);
    if i > 0 {
      AssembledOffset(crc, protocol, table, fields, i - 1);
      AssembledWalk(crc, protocol, table, fields, i - 1);
      assert fields[..i][..i - 1] == fields[..i - 1];
    }
  }

  /** The bytes around field `i`'s data. */
  lemma {:induction false} AssembledPieces(crc: nat, protocol: nat, table: Bytes, fields: seq<Field>, i: nat)
    requires i < |fields|
    ensures var front := Header(crc, protocol, |fields|) + table + Data(fields[..i]);
      var f, b := fields[i], Assemble(crc, protocol, table, fields);
      && |front| + |f.key| + |f.val| <= |b|
      && b == front + f.key + f.val + b[|front| + |f.key| + |f.val|..]
  {
    hide Header, Data;
    DataPrefix(fields, i + 1);
    DataStep(fields, i);
    var data, upTo := Data(fields), Data(fields[..i + 1]);
    assert data == upTo + data[|upTo|..];
  }

  lemma {:induction false} AssembledField(crc: nat, protocol: nat, table: Bytes, fields: seq<Field>, i: nat)
    requires |table| == 4 * |fields| && |fields| < 0x1_0000 && protocol < 0x1_0000
    requires Announces(table, fields) && i < |fields|
    requires var b := Assemble(crc, protocol, table, fields); WellFormed(b) && LogSize(b) == |fields|
    ensures FieldAt(Assemble(crc, protocol, table, fields), i) == fields[i]
  {
    hide Assemble, Header, Data, Offset, KLen, VLen, U16At, WellFormed;
    var b := Assemble(crc, protocol, table, fields);
    AssembledOffset(crc, protocol, table, fields, i);
    AssembledWalk(crc, protocol, table, fields, i);
    AssembledPieces(crc, protocol, table, fields, i);
    var front := Header(crc, protocol, |fields|) + table + Data(fields[..i]);
    var f := fields[i];
    Pieces(b, front, f.key, f.val, b[|front| + |f.key| + |f.val|..]);
  }

  lemma {:induction false} AssembledSize(crc: nat, protocol: nat, table: Bytes, fields: seq<Field>)
    ensures |Assemble(crc, protocol, table, fields)| == PROTOCOL_SIZE + |table| + |Data(fields)|
  {
  }

  /** The walk recovers the fields laid out behind a table exactly when every entry it reads, the index
      wrapping after 32768 fields, is the lengths of its field. */
  lemma {:induction false} WalkIff(crc: nat, protocol: nat, table: Bytes, fields: seq<Field>)
    requires |table| == 4 * |fields| && |fields| < 0x1_0000 && protocol < 0x1_0000
    ensures var b := Assemble(crc, protocol, table, fields);
      WellFormed(b) && Fields(b) == fields <==> Announces(table, fields)
  {
    hide Assemble, Header, Data, Offset, KLen, VLen, U16At;
    var b := Assemble(crc, protocol, table, fields);
    AssembledHeader(crc, protocol, table, fields);
    if Announces(table, fields) {
      AssembledOffset(crc, protocol, table, fields, |fields|);
      assert fields[..|fields|] == fields;
      AssembledSize(crc, protocol, table, fields);
      forall i | 0 <= i < |fields|
        ensures FieldAt(b, i) == fields[i]
      {
        AssembledField(crc, protocol, table, fields, i);
      }
    } else if WellFormed(b) && Fields(b) == fields {
      forall i | 0 <= i < |fields|
        ensures U16At(table, 4 * Entry(i)) == |fields[i].key| && U16At(table, 4 * Entry(i) + 2) == |fields[i].val|
      {
        AssembledWalk(crc, protocol, table, fields, i);
        assert FieldAt(b, i) == fields[i];
      }
    }
  }

  /** From field 32768 on, lengths repeat those of the field 32768 places earlier. */
  predicate Repeats(fields: seq<Field>) {
    forall i :: 0x8000 <= i < |fields| ==>
      |fields[i].key| == |fields[i - 0x8000].key| && |fields[i].val| == |fields[i - 0x8000].val|
  }

  lemma {:induction false} TableEntry(fields: seq<Field>, i: nat)
    requires i < |fields| < 0x1_0000 && forall f :: f in fields ==> Fits(f)
    ensures U16At(Table(fields), 4 * Entry(i)) == |fields[Entry(i)].key|
    ensures U16At(Table(fields), 4 * Entry(i) + 2) == |fields[Entry(i)].val|
  {
    assert fields[Entry(i)] in fields;
    TableAt(fields, Entry(i));
  }

  lemma {:induction false} TableAnnouncesIff(fields: seq<Field>)
    requires |fields| < 0x1_0000 && forall f :: f in fields ==> Fits(f)
    ensures Announces(Table(fields), fields) <==> Repeats(fields)
  {
    hide U16At, Table, Entry, Fits;
    if Repeats(fields) {
      forall i | 0 <= i < |fields|
        ensures U16At(Table(fields), 4 * Entry(i)) == |fields[i].key|
        ensures U16At(Table(fields), 4 * Entry(i) + 2) == |fields[i].val|
      {
        TableEntry(fields, i);
      }
    } else {
      var i :| 0x8000 <= i < |fields| &&
        !(|fields[i].key| == |fields[i - 0x8000].key| && |fields[i].val| == |fields[i - 0x8000].val|);
      TableEntry(fields, i);
    }
  }

  lemma {:induction false} ShortRepeats(fields: seq<Field>)
    ensures |fields| <= 0x8000 ==> Repeats(fields)
  {
  }

  /** Encoding and then walking gives back every field, in order, exactly when lengths repeat from field
      32768 on; with at most 32768 fields they always do. */
  lemma {:induction false} WalkOfEncode(m: Message)
    requires Encodable(m)
    ensures WellFormed(Encode(m)) && Fields(Encode(m)) == m.fields <==> Repeats(m.fields)
    ensures |m.fields| <= 0x8000 ==> Repeats(m.fields)
  {
    hide WellFormed, Fields, Repeats, Announces;
    WalkIff(m.crc, m.protocol, Table(m.fields), m.fields);
    TableAnnouncesIff(m.fields);
    ShortRepeats(m.fields);
  }

  function Crc(b: Bytes): nat
    requires PROTOCOL_SIZE <= |b|
  {
    U16At(b, 0) + 0x1_0000 * U16At(b, 2)
  }

  function Decode(b: Bytes): Message
    requires WellFormed(b)
  {
    Message(Crc(b), Protocol(b), Fields(b))
  }

  lemma {:induction false} U16BytesOfAt(b: Bytes, off: nat)
    requires off + 2 <= |b|
    ensures U16Bytes(U16At(b, off)) == b[off..off + 2]
  {
    var lo, hi := b[off] as int, b[off + 1] as int;
    assert (lo + 256 * hi) % 256 == lo && (lo + 256 * hi) / 256 == hi;
  }

  lemma {:induction false} CrcHalves(lo: nat, hi: nat)
    requires lo < 0x1_0000 && hi < 0x1_0000
    ensures U32Bytes(lo + 0x1_0000 * hi) == U16Bytes(lo) + U16Bytes(hi)
  {
    var v := lo + 0x1_0000 * hi;
    DivModUnique(v, 0x1_0000, hi, lo);
    DivModUnique(v, 256, lo / 256 + 256 * hi, lo % 256);
    DivModUnique(lo / 256 + 256 * hi, 256, hi, lo / 256);
    DivModUnique(lo / 256, 256, 0, lo / 256);
  }

  lemma {:induction false} HeaderOfWalk(b: Bytes)
    requires PROTOCOL_SIZE <= |b|
    ensures Header(Crc(b), Protocol(b), LogSize(b)) == b[..8]
  {
    hide U16Bytes, U16At;
    CrcHalves(U16At(b, 0), U16At(b, 2));
    U16BytesOfAt(b, 0);
    U16BytesOfAt(b, 2);
    U16BytesOfAt(b, 4);
    U16BytesOfAt(b, 6);
    assert b[..8] == b[0..2] + b[2..4] + b[4..6] + b[6..8];
  }

  /** `fs` starts with the first `i` fields of the walk over `b`. */
  ghost predicate Walked(b: Bytes, fs: seq<Field>, i: nat)
    requires WellFormed(b)
  {
    |fs| == i <= LogSize(b) && forall j :: 0 <= j < i ==> fs[j] == FieldAt(b, j)
  }

  lemma {:induction false} WalkedNone(b: Bytes, fs: seq<Field>)
    requires WellFormed(b) && Walked(b, fs, 0)
    ensures Data(fs) == [] && Table(fs) == [] && PROTOCOL_SIZE <= |b| && Offset(b, 0) == DataStart(b) <= |b|
  {
  }

  lemma {:induction false} WalkedLast(b: Bytes, fs: seq<Field>, i: nat)
    requires WellFormed(b) && Walked(b, fs, i) && i > 0
    ensures |fs| == i <= LogSize(b) && PROTOCOL_SIZE + 4 * i <= |b|
    ensures Walked(b, fs[..i - 1], i - 1) && fs[i - 1] == FieldAt(b, i - 1)
    ensures Table(fs) == Table(fs[..i - 1]) + U16Bytes(KLen(b, i - 1)) + U16Bytes(VLen(b, i - 1))
    ensures Data(fs) == Data(fs[..i - 1]) + fs[i - 1].key + fs[i - 1].val
  {
  }

  lemma {:induction false} Adjacent(b: Bytes, i: nat, j: nat, k: nat)
    requires i <= j <= k <= |b|
    ensures b[i..j] + b[j..k] == b[i..k]
  {
  }

  /** The first `i` table entries are those the walk reads. */
  ghost predicate TableRepeats(b: Bytes, i: nat)
    requires PROTOCOL_SIZE + 4 * i <= |b|
  {
    forall j :: 0 <= j < i ==> TableKey(b, j) == KLen(b, j) && TableVal(b, j) == VLen(b, j)
  }

  lemma {:induction false} TableRepeatsNext(b: Bytes, i: nat)
    requires i > 0 && PROTOCOL_SIZE + 4 * i <= |b|
    ensures TableRepeats(b, i) <==>
      TableRepeats(b, i - 1) && TableKey(b, i - 1) == KLen(b, i - 1) && TableVal(b, i - 1) == VLen(b, i - 1)
  {
  }

  /** Two table bytes are those of a length exactly when they announce it. */
  lemma {:induction false} U16Same(b: Bytes, off: nat, v: nat)
    requires off + 2 <= |b| && v < 0x1_0000
    ensures U16Bytes(v) == b[off..off + 2] <==> U16At(b, off) == v
  {
    U16BytesOfAt(b, off);
    U16RoundTrip(v, [], []);
    U16RoundTrip(U16At(b, off), [], []);
    assert [] + U16Bytes(v) + [] == U16Bytes(v) && [] + U16Bytes(U16At(b, off)) + [] == U16Bytes(U16At(b, off));
  }

  lemma {:induction false} TableOfWalk(b: Bytes, fs: seq<Field>, i: nat)
    requires WellFormed(b) && Walked(b, fs, i)
    ensures |fs| == i && PROTOCOL_SIZE + 4 * i <= |b| && |Table(fs)| == 4 * i
    ensures Table(fs) == b[8..8 + 4 * i] <==> TableRepeats(b, i)
    decreases i
  {
    hide U16At, Offset, U16Bytes, Table, Data, WellFormed, KLen, VLen;
    if i == 0 {
      WalkedNone(b, fs);
    } else {
      hide Walked, TableRepeats;
      WalkedLast(b, fs, i);
      TableOfWalk(b, fs[..i - 1], i - 1);
      var j := 8 + 4 * (i - 1);
      U16Same(b, j, KLen(b, i - 1));
      U16Same(b, j + 2, VLen(b, i - 1));
      Adjacent(b, 8, j, j + 2);
      Adjacent(b, 8, j + 2, j + 4);
      TableRepeatsNext(b, i);
      var t, k, v := Table(fs[..i - 1]), U16Bytes(KLen(b, i - 1)), U16Bytes(VLen(b, i - 1));
      SameParts(t + k, v, b[8..j + 2], b[j + 2..j + 4]);
      SameParts(t, k, b[8..j], b[j..j + 2]);
    }
  }

  lemma {:induction false} FieldSlices(b: Bytes, i: nat)
    requires WellFormed(b) && i < LogSize(b)
    ensures DataStart(b) <= Offset(b, i) && Offset(b, i) + KLen(b, i) + VLen(b, i) <= |b|
    ensures FieldAt(b, i).key == b[Offset(b, i)..Offset(b, i) + KLen(b, i)]
    ensures FieldAt(b, i).val == b[Offset(b, i) + KLen(b, i)..Offset(b, i) + KLen(b, i) + VLen(b, i)]
  {
    InBounds(b, i);
  }

  lemma {:induction false} DataOfWalk(b: Bytes, fs: seq<Field>, i: nat)
    requires WellFormed(b) && Walked(b, fs, i)
    ensures DataStart(b) <= Offset(b, i) <= |b|
    ensures Data(fs) == b[DataStart(b)..Offset(b, i)]
    decreases i
  {
    hide U16At, Offset, U16Bytes, Table, Data, Walked, WellFormed;
    if i == 0 {
      WalkedNone(b, fs);
    } else {
      WalkedLast(b, fs, i);
      DataOfWalk(b, fs[..i - 1], i - 1);
      InBounds(b, i - 1);
      OffsetStep(b, i - 1);
      FieldSlices(b, i - 1);
      var off, klen := Offset(b, i - 1), KLen(b, i - 1);
      Adjacent(b, DataStart(b), off, off + klen);
      Adjacent(b, DataStart(b), off + klen, Offset(b, i));
    }
  }

  lemma {:induction false} ShortTableRepeats(b: Bytes, i: nat)
    requires PROTOCOL_SIZE + 4 * i <= |b|
    ensures i <= 0x8000 ==> TableRepeats(b, i)
  {
    hide KLen, VLen, TableKey, TableVal;
    if i <= 0x8000 {
      forall j | 0 <= j < i
        ensures TableKey(b, j) == KLen(b, j) && TableVal(b, j) == VLen(b, j)
      {
        WalkEntry(b, j);
      }
    }
  }

  /** A message the walk fits is the encoding of what the walk reads off it exactly when the walk reads
      every table entry; with at most 32768 fields it always does. */
  lemma {:induction false} EncodeOfDecode(b: Bytes)
    requires WellFormed(b)
    ensures Encodable(Decode(b))
    ensures Encode(Decode(b)) == b <==> TableRepeats(b, LogSize(b))
    ensures LogSize(b) <= 0x8000 ==> TableRepeats(b, LogSize(b))
  {
    hide U16At, U16Bytes, Offset, Header, Table, Data, TableRepeats, KLen, VLen;
    var fs := Fields(b);
    HeaderOfWalk(b);
    TableOfWalk(b, fs, LogSize(b));
    DataOfWalk(b, fs, LogSize(b));
    var d := DataStart(b);
    Adjacent(b, 8, d, |b|);
    Adjacent(b, 0, 8, |b|);
    assert b == b[..8] + b[8..d] + b[d..];
    SameParts(b[..8] + Table(fs), Data(fs), b[..8] + b[8..d], b[d..]);
    SameParts(b[..8], Table(fs), b[..8], b[8..d]);
    ShortTableRepeats(b, LogSize(b));
  }

  // ----- The bytes themselves -----

  /** The layout of an encoded message, byte by byte. */
  lemma {:induction false} EncodedBytes(m: Message)
    requires Encodable(m)
    ensures var b, n := Encode(m), |m.fields|;
      && |b| == 8 + 4 * n + |Data(m.fields)| && b[8 + 4 * n..] == Data(m.fields)
      && b[0] as int + 256 * b[1] as int + 65536 * b[2] as int + 16777216 * b[3] as int == m.crc
      && b[4] as int + 256 * b[5] as int == m.protocol
      && b[6] as int + 256 * b[7] as int == n
      && (forall i :: 0 <= i < n ==> b[8 + 4 * i] as int + 256 * b[9 + 4 * i] as int == |m.fields[i].key|)
      && (forall i :: 0 <= i < n ==> b[10 + 4 * i] as int + 256 * b[11 + 4 * i] as int == |m.fields[i].val|)
  {
    hide Table, Data, U16Bytes, Encode;
    EncodedSize(m);
    HeaderFields(m);
    EncodedCrc(m);
    var b := Encode(m);
    assert U16At(b, 4) == m.protocol && U16At(b, 6) == |m.fields|;
    forall i | 0 <= i < |m.fields|
      ensures b[8 + 4 * i] as int + 256 * b[9 + 4 * i] as int == |m.fields[i].key|
      ensures b[10 + 4 * i] as int + 256 * b[11 + 4 * i] as int == |m.fields[i].val|
    {
      EncodedLengths(m, i);
    }
  }

  lemma {:induction false} EncodedSize(m: Message)
    ensures var b, n := Encode(m), |m.fields|;
      |b| == 8 + 4 * n + |Data(m.fields)| && b[8 + 4 * n..] == Data(m.fields)
  {
  }

  lemma {:induction false} EncodedCrc(m: Message)
    requires m.crc < 0x1_0000_0000
    ensures PROTOCOL_SIZE <= |Encode(m)| && U16At(Encode(m), 0) + 65536 * U16At(Encode(m), 2) == m.crc
  {
    hide U16At, U16Bytes, Table, Data;
    var lo, hi := m.crc % 0x1_0000, m.crc / 0x1_0000;
    var tail := U16Bytes(m.protocol) + U16Bytes(|m.fields|) + Table(m.fields) + Data(m.fields);
    var b := Encode(m);
    U16Mod(m.crc);
    assert b == [] + U16Bytes(m.crc) + (U16Bytes(hi) + tail);
    U16Stored(m.crc, [], U16Bytes(hi) + tail);
    assert b == U16Bytes(m.crc) + U16Bytes(hi) + tail;
    U16Stored(hi, U16Bytes(m.crc), tail);
  }

  /** The data part: every key followed by its value, in field order. */
  lemma {:induction false} DataMeans(fields: seq<Field>, f: Field)
    ensures Data([]) == [] && Data(fields + [f]) == Data(fields) + f.key + f.val
  {
    assert (fields + [f])[..|fields|] == fields;
  }

  /** One message in full: crc 0x04030201, protocol 1, the fields ("k", "vw") and ("", "x"). */
  lemma {:induction false} EncodedExample()
    ensures Encode(Message(0x04030201, 1, [Field([107], [118, 119]), Field([], [120])]))
      == [1, 2, 3, 4, 1, 0, 2, 0, 1, 0, 2, 0, 0, 0, 1, 0, 107, 118, 119, 120]
  {
    var fs := [Field([107], [118, 119]), Field([], [120])];
    assert fs[..1] == [fs[0]] && fs[..1][..0] == [];
    assert Table(fs[..1]) == [1, 0, 2, 0] && Data(fs[..1]) == [107, 118, 119];
    assert Table(fs) == [1, 0, 2, 0, 0, 0, 1, 0];
    assert U32Bytes(0x04030201) == [1, 2, 3, 4];
  }
}
