/** Building and searching messages in memory: emit_message of include/protocol.h and LogEntry_get of
    plugins/pool/pool_plugin.c. */
module Encoder {
  import opened Bits
  import opened Memory
  import opened Wire

  // ----- A message under construction -----

  /** Buffer contents: header, table so far, untouched rest of the table, data so far, untouched rest. */
  function Layout(base: Bytes, header: Bytes, table: Bytes, data: Bytes, n: nat): (r: Bytes)
    requires |header| == PROTOCOL_SIZE && |table| <= 4 * n && 8 + 4 * n + |data| <= |base|
    ensures |r| == |base|
  {
    header + table + base[8 + |table|..8 + 4 * n] + data + base[8 + 4 * n + |data|..]
  }

  /** The message with the fields `done` written, out of `n`. */
  function Partial(base: Bytes, header: Bytes, done: seq<Field>, n: nat): (r: Bytes)
    requires |header| == PROTOCOL_SIZE && |done| <= n && PROTOCOL_SIZE + 4 * n + |Data(done)| <= |base|
    ensures |r| == |base|
  {
    Layout(base, header, Table(done), Data(done), n)
  }

  lemma {:induction false} TableSnoc(done: seq<Field>, f: Field)
    ensures Table(done + [f]) == Table(done) + (U16Bytes(|f.key|) + U16Bytes(|f.val|))
    ensures Data(done + [f]) == Data(done) + (f.key + f.val)
  {
    assert (done + [f])[..|done|] == done;
  }

  lemma {:induction false} PartialTable(base: Bytes, header: Bytes, table: Bytes, data: Bytes, n: nat, entry: Bytes)
    requires |header| == PROTOCOL_SIZE && |table| + |entry| <= 4 * n && 8 + 4 * n + |data| <= |base|
    ensures Splice(Layout(base, header, table, data, n), 8 + |table|, entry) ==
      Layout(base, header, table + entry, data, n)
  {
  }

  lemma {:induction false} PartialData(base: Bytes, header: Bytes, table: Bytes, data: Bytes, n: nat, more: Bytes)
    requires |header| == PROTOCOL_SIZE && |table| <= 4 * n && 8 + 4 * n + |data| + |more| <= |base|
    ensures Splice(Layout(base, header, table, data, n), 8 + 4 * n + |data|, more) ==
      Layout(base, header, table, data + more, n)
  {
  }

  /** Splicing four table bytes and one field's data turns `done` into `done + [f]`. */
  lemma {:induction false} PartialStep(base: Bytes, header: Bytes, done: seq<Field>, n: nat, f: Field)
    requires |header| == PROTOCOL_SIZE && |done| < n
    requires PROTOCOL_SIZE + 4 * n + |Data(done)| + |f.key + f.val| <= |base|
    ensures |Data(done + [f])| == |Data(done)| + |f.key + f.val|
    ensures var entry := U16Bytes(|f.key|) + U16Bytes(|f.val|);
      Splice(Splice(Partial(base, header, done, n), 8 + 4 * |done|, entry), 8 + 4 * n + |Data(done)|, f.key + f.val)
      == Partial(base, header, done + [f], n)
  {
    hide Layout, Splice, Table, Data, U16Bytes;
    TableSnoc(done, f);
    var entry, data := U16Bytes(|f.key|) + U16Bytes(|f.val|), f.key + f.val;
    PartialTable(base, header, Table(done), Data(done), n, entry);
    PartialData(base, header, Table(done) + entry, Data(done), n, data);
  }

  /** With all fields in place the buffer starts with the encoded message. */
  lemma {:induction false} PartialDone(base: Bytes, crc: nat, protocol: nat, fields: seq<Field>)
    requires PROTOCOL_SIZE + 4 * |fields| + |Data(fields)| <= |base|
    ensures var e := Encode(Message(crc, protocol, fields));
      Partial(base, Header(crc, protocol, |fields|), fields, |fields|) == e + base[|e|..]
  {
  }

  lemma {:induction false} NoData()
    ensures Data([]) == [] && Table([]) == []
  {
  }

  lemma {:induction false} HeaderParts(base: Bytes, crc: nat, protocol: nat, n: nat)
    requires PROTOCOL_SIZE + 4 * n <= |base| && Header(crc, protocol, n)[..4] == base[..4]
    ensures Splice(Splice(base, 4, U16Bytes(protocol)), 6, U16Bytes(n)) ==
      Partial(base, Header(crc, protocol, n), [], n)
  {
    var h := Header(crc, protocol, n);
    assert h == base[..4] + U16Bytes(protocol) + U16Bytes(n);
    assert Splice(Splice(base, 4, U16Bytes(protocol)), 6, U16Bytes(n)) == h + base[8..];
    assert Layout(base, h, [], [], n) == h + base[8..];
  }

  lemma {:induction false} CrcBytes(base: Bytes, protocol: nat, n: nat)
    requires PROTOCOL_SIZE <= |base|
    ensures Header(Crc(base), protocol, n)[..4] == base[..4]
  {
    HeaderOfWalk(base);
    assert Header(Crc(base), Protocol(base), LogSize(base))[..4] == U32Bytes(Crc(base));
    assert Header(Crc(base), protocol, n)[..4] == U32Bytes(Crc(base));
  }

  /** Protocol and field count; the crc word is not written. */
  method EmitHeader(buf: array<Byte>, protocol: nat, n: nat) returns (data: nat)
    requires PROTOCOL_SIZE + 4 * n <= buf.Length
    modifies buf
    ensures data == PROTOCOL_SIZE + 4 * n
    ensures buf[..] == Partial(old(buf[..]), Header(Crc(old(buf[..])), protocol, n), [], n)
  {
    ghost var base := buf[..];
    CrcBytes(base, protocol, n);
    PutU16(buf, 4, protocol);
    PutU16(buf, 6, n);
    data := PROTOCOL_SIZE + 4 * n;
    HeaderParts(base, Crc(base), protocol, n);
  }

  lemma {:induction false} SumStep(d: nat, k: nat, v: nat)
    ensures (d % 0x1_0000 + k + v) % 0x1_0000 == (d + k + v) % 0x1_0000
  {
    ModAdd(d, k + v, 0x1_0000);
  }

  /** Two table entries, then key and value. */
  method WriteField(buf: array<Byte>, entry: nat, data: nat, f: Field)
    requires entry + 4 <= data && data + |f.key| + |f.val| <= buf.Length
    modifies buf
    ensures buf[..] == Splice(Splice(old(buf[..]), entry, U16Bytes(|f.key|) + U16Bytes(|f.val|)), data, f.key + f.val)
  {
    ghost var s := buf[..];
    PutU16(buf, entry, |f.key|);
    PutU16(buf, entry + 2, |f.val|);
    SpliceAppend(s, entry, U16Bytes(|f.key|), U16Bytes(|f.val|));
    ghost var t := buf[..];
    PutBytes(buf, data, f.key);
    PutBytes(buf, data + |f.key|, f.val);
    SpliceAppend(t, data, f.key, f.val);
  }

  /** `emit_message`. The crc bytes are left as they were, and the returned size adds up the field
      lengths in 16 bits. */
  method EmitMessage(buf: array<Byte>, protocol: nat, fields: seq<Field>) returns (size: nat)
    requires protocol < 0x1_0000 && |fields| < 0x1_0000 && forall f :: f in fields ==> Fits(f)
    requires PROTOCOL_SIZE + 4 * |fields| + |Data(fields)| <= buf.Length
    modifies buf
    ensures var m := Message(Crc(old(buf[..])), protocol, fields);
      buf[..] == Encode(m) + old(buf[..])[|Encode(m)|..]
    ensures size == PROTOCOL_SIZE + 4 * |fields| + |Data(fields)| % 0x1_0000
  {
    hide Partial, Splice, Table, Data, Encode, Header, Crc;
    ghost var base, n := buf[..], |fields|;
    ghost var header := Header(Crc(base), protocol, n);
    var data := EmitHeader(buf, protocol, |fields|);
    NoData();
    var total := 0;
    for i := 0 to |fields|
      invariant data == PROTOCOL_SIZE + 4 * n + |Data(fields[..i])| <= buf.Length
      invariant buf[..] == Partial(base, header, fields[..i], n)
      invariant total == |Data(fields[..i])| % 0x1_0000
    {
      var f := fields[i];
      assert fields[..i + 1] == fields[..i] + [f];
      DataPrefix(fields, i + 1);
      TableSnoc(fields[..i], f);
      PartialStep(base, header, fields[..i], n, f);
      WriteField(buf, 8 + 4 * i, data, f);
      data := data + |f.key| + |f.val|;
      SumStep(|Data(fields[..i])|, |f.key|, |f.val|);
      total := (total + |f.key| + |f.val|) % 0x1_0000;
    }
    assert fields[..n] == fields;
    PartialDone(base, Crc(base), protocol, fields);
    size := PROTOCOL_SIZE + 4 * |fields| + total;
  }

  // ----- Field lookup -----

  /** `strncmp(a, b, n) == 0` on two `n`-byte areas: equal up to the first NUL, if there is one. */
  predicate StrnEq(a: Bytes, b: Bytes)
    requires |a| == |b|
  {
    a == [] || (a[0] == b[0] && (a[0] == 0 || StrnEq(a[1..], b[1..])))
  }

  lemma {:induction false} StrnEqPlain(a: Bytes, b: Bytes)
    requires |a| == |b| && forall i :: 0 <= i < |a| - 1 ==> a[i] != 0
    ensures StrnEq(a, b) <==> a == b
    decreases |a|
  {
    if a != [] {
      StrnEqPlain(a[1..], b[1..]);
      assert a == [a[0]] + a[1..] && b == [b[0]] + b[1..];
    }
  }

  lemma {:induction false} StrnEqNul(a: Bytes, b: Bytes, i: nat)
    requires |a| == |b| && i < |a| && a[i] == 0 && a[..i + 1] == b[..i + 1]
    ensures StrnEq(a, b)
    decreases i
  {
    assert a[0] == a[..i + 1][0] == b[0];
    assert a[i] == a[..i + 1][i] == b[i];
    if i > 0 && a[0] != 0 {
      assert a[1..][..i] == a[..i + 1][1..] == b[1..][..i];
      StrnEqNul(a[1..], b[1..], i - 1);
    }
  }

  /** The comparison is equality exactly for keys without a NUL before their last byte. */
  lemma {:induction false} StrnEqExact(a: Bytes)
    ensures (forall b: Bytes :: |b| == |a| ==> (StrnEq(a, b) <==> a == b))
      <==> (forall i :: 0 <= i < |a| - 1 ==> a[i] != 0)
  {
    if forall i :: 0 <= i < |a| - 1 ==> a[i] != 0 {
      forall b: Bytes | |b| == |a|
        ensures StrnEq(a, b) <==> a == b
      {
        StrnEqPlain(a, b);
      }
    } else {
      var i :| 0 <= i < |a| - 1 && a[i] == 0;
      var last: Byte := if a[|a| - 1] == 0 then 1 else 0;
      var b: Bytes := a[|a| - 1 := last];
      StrnEqNul(a, b, i);
      assert a[|a| - 1] != b[|a| - 1];
    }
  }

  predicate Matches(f: Field, key: Bytes) {
    |f.key| == |key| && StrnEq(key, f.key)
  }

  datatype Found = NotFound | Found(pos: nat, len: nat)

  /** `LogEntry_get`: position and length of the value of the first field whose key matches. */
  method LogEntryGet(b: Bytes, key: Bytes) returns (r: Found)
    requires WellFormed(b)
    ensures r == NotFound <==> forall f :: f in Fields(b) ==> !Matches(f, key)
    ensures r.Found? ==> r.pos + r.len <= |b| && exists i ::
      && 0 <= i < |Fields(b)| && Matches(Fields(b)[i], key)
      && (forall j :: 0 <= j < i ==> !Matches(Fields(b)[j], key))
      && b[r.pos..r.pos + r.len] == Fields(b)[i].val
  {
    hide Offset, U16At;
    var fields := Fields(b);
    var data := DataStart(b);
    OffsetStart(b);
    for i := 0 to LogSize(b)
      invariant data == Offset(b, i)
      invariant forall j :: 0 <= j < i ==> !Matches(fields[j], key)
    {
      InBounds(b, i);
      OffsetStep(b, i);
      var len0, len1 := KLen(b, i), VLen(b, i);
      var next := data + len0 + len1;
      assert fields[i] == FieldAt(b, i);
      if |key| == len0 && StrnEq(key, b[data..data + len0]) {
        assert Matches(fields[i], key) && fields[i] in fields;
        return Found(data + |key|, len1);
      }
      data := next;
    }
    return NotFound;
  }

  /** The comparison looks at every byte up to and including the first NUL of `a`. */
  lemma {:induction false} StrnEqMeans(a: Bytes, b: Bytes)
    requires |a| == |b|
    ensures StrnEq(a, b) <==>
      forall i :: 0 <= i < |a| && (forall j :: 0 <= j < i ==> a[j] != 0) ==> a[i] == b[i]
    decreases |a|
  {
    if a != [] {
      StrnEqMeans(a[1..], b[1..]);
      if a[0] == b[0] && a[0] != 0 {
        if StrnEq(a, b) {
          forall i | 0 <= i < |a| && (forall j :: 0 <= j < i ==> a[j] != 0)
            ensures a[i] == b[i]
          {
            if i > 0 {
              assert forall j :: 0 <= j < i - 1 ==> a[1..][j] == a[j + 1];
              assert a[1..][i - 1] == b[1..][i - 1];
            }
          }
        } else {
          var i :| 0 <= i < |a| - 1 && (forall j :: 0 <= j < i ==> a[1..][j] != 0) && a[1..][i] != b[1..][i];
          forall j | 0 <= j < i + 1
            ensures a[j] != 0
          {
            assert j > 0 ==> a[1..][j - 1] == a[j];
          }
          assert a[i + 1] != b[i + 1];
        }
      }
    }
  }

  /** A field matches a NUL-free key exactly when its key is that key. */
  lemma {:induction false} MatchesMeans(f: Field, key: Bytes)
    requires forall i :: 0 <= i < |key| ==> key[i] != 0
    ensures Matches(f, key) <==> f.key == key
  {
    if |f.key| == |key| {
      StrnEqPlain(key, f.key);
    }
  }
}
