/** The number printers of plugins/trace/lpstring.h. */
module Printers {
  import opened Bits
  import opened Memory

  const MAX_U64: nat := 0xffff_ffff_ffff_ffff
  const MINUS: Byte := 45
  const DOT: Byte := 46
  const ZERO: Byte := 48

  // ----- Decimal text -----

  function Digit(d: nat): Byte
    requires d < 10
  {
    48 + d
  }

  function Dec(v: nat): (r: Bytes)
    ensures |r| > 0
  {
    if v < 10 then [Digit(v)] else Dec(v / 10) + [Digit(v % 10)]
  }

  function ParseDec(s: Bytes): int {
    if s == [] then 0 else ParseDec(s[..|s| - 1]) * 10 + (s[|s| - 1] as int - 48)
  }

  predicate AllDigits(s: Bytes) {
    forall i :: 0 <= i < |s| ==> 48 <= s[i] <= 57
  }

  /** Digits without a superfluous leading zero. */
  predicate Canonical(s: Bytes) {
    0 < |s| && AllDigits(s) && (|s| > 1 ==> s[0] != ZERO)
  }

  lemma {:induction false} DecRoundTrip(v: nat)
    ensures ParseDec(Dec(v)) == v && Canonical(Dec(v)) && (v > 0 ==> Dec(v)[0] != ZERO)
  {
    if v < 10 {
      assert Dec(v)[..0] == [];
    } else {
      DecRoundTrip(v / 10);
      assert Dec(v)[..|Dec(v)| - 1] == Dec(v / 10);
    }
  }

  /** Canonical text is the only text printed for its value. */
  lemma {:induction false} DecUnique(s: Bytes)
    requires Canonical(s)
    ensures ParseDec(s) >= 0 && Dec(ParseDec(s)) == s
    ensures s[0] != ZERO ==> ParseDec(s) > 0
    decreases |s|
  {
    var n := |s| - 1;
    assert 48 <= s[n] <= 57;
    if n == 0 {
      assert s[..0] == [] && s == [s[0]];
    } else {
      var front := s[..n];
      assert front[0] == s[0];
      DecUnique(front);
      var v, d := ParseDec(front), s[n] as int - 48;
      assert (v * 10 + d) / 10 == v && (v * 10 + d) % 10 == d;
      assert s == front + [s[n]];
    }
  }

  function Reversed(s: Bytes): (r: Bytes)
    ensures |r| == |s|
    ensures forall i :: 0 <= i < |s| ==> r[i] == s[|s| - 1 - i]
  {
    seq(|s|, i requires 0 <= i < |s| => s[|s| - 1 - i])
  }

  /** Digits in the order the do-while loop emits them. */
  function Emitted(v: nat): (r: Bytes) {
    [Digit(v % 10)] + (if v / 10 == 0 then [] else Emitted(v / 10))
  }

  function Pending(rest: nat): Bytes {
    if rest == 0 then [] else Emitted(rest)
  }

  lemma {:induction false} EmittedReversed(v: nat)
    ensures Reversed(Emitted(v)) == Dec(v) && |Emitted(v)| == |Dec(v)|
  {
    if v >= 10 {
      EmittedReversed(v / 10);
      var e := Emitted(v / 10);
      assert Emitted(v) == [Digit(v % 10)] + e;
      assert Reversed([Digit(v % 10)] + e) == Reversed(e) + [Digit(v % 10)];
    }
  }

  lemma {:induction false} ReversedSplice(was: Bytes, now: Bytes, start: nat, end: nat)
    requires start <= end <= |was| == |now|
    requires forall k :: 0 <= k < |was| ==> now[k] == was[if start <= k < end then start + end - 1 - k else k]
    ensures now == Splice(was, start, Reversed(was[start..end]))
  {
  }

  /** Reverses `a[start..end]` in place. */
  method Reverse(a: array<Byte>, start: nat, end: nat)
    requires start <= end <= a.Length
    modifies a
    ensures a[..] == Splice(old(a[..]), start, Reversed(old(a[start..end])))
  {
    ghost var was := a[..];
    var m := start + (end - start) / 2;
    var s, e := start, end - 1;
    while s < m
      invariant start <= s <= m && e == end - 1 - (s - start)
      invariant forall k :: 0 <= k < a.Length ==>
        a[k] == was[if start <= k < s || e < k < end then start + end - 1 - k else k]
    {
      var tmp := a[s];
      a[s] := a[e];
      a[e] := tmp;
      s, e := s + 1, e - 1;
    }
    ReversedSplice(was, a[..], start, end);
  }

  lemma {:induction false} EmitStep(out: Bytes, rest: nat, v: nat)
    requires out + Emitted(rest) == Emitted(v)
    ensures out + [Digit(rest % 10)] + Pending(rest / 10) == Emitted(v)
    ensures rest / 10 == 0 ==> out + [Digit(rest % 10)] == Emitted(v)
    ensures |out| + 1 <= |Emitted(v)|
  {
  }

  /** Digits backwards through a moving pointer, then reversed in place. */
  method PutD(a: array<Byte>, p: nat, v: nat) returns (end: nat)
    requires p + |Dec(v)| <= a.Length
    modifies a
    ensures a[..] == Splice(old(a[..]), p, Dec(v)) && end == p + |Dec(v)|
  {
    ghost var was, out := a[..], [];
    EmittedReversed(v);
    var rest := v;
    end := p;
    SpliceNothing(was, p);
    while true
      invariant end == p + |out| && out + Emitted(rest) == Emitted(v)
      invariant end <= a.Length && a[..] == Splice(was, p, out)
      decreases rest
    {
      var c := Digit(rest % 10);
      EmitStep(out, rest, v);
      end := AppendByte(a, was, p, out, end, c);
      out := out + [c];
      rest := rest / 10;
      if rest == 0 { break; }
    }
    assert a[p..end] == out;
    Reverse(a, p, end);
    SpliceOver(was, p, out, Dec(v));
  }

  // ----- Signed integers -----

  function IntText(value: int): (r: Bytes)
    ensures |r| > 0
  {
    if value < 0 then [MINUS] + Dec(-value) else Dec(value)
  }

  function ParseInt(s: Bytes): int {
    if s != [] && s[0] == MINUS then -ParseDec(s[1..]) else ParseDec(s)
  }

  lemma {:induction false} IntRoundTrip(value: int)
    ensures ParseInt(IntText(value)) == value
    ensures Canonical(if value < 0 then IntText(value)[1..] else IntText(value))
  {
    DecRoundTrip(if value < 0 then -value else value);
    assert value < 0 ==> IntText(value)[1..] == Dec(-value);
  }

  method PutI(a: array<Byte>, p: nat, value: int) returns (end: nat)
    requires -0x8000_0000_0000_0000 < value < 0x8000_0000_0000_0000
    requires p + |IntText(value)| <= a.Length
    modifies a
    ensures a[..] == Splice(old(a[..]), p, IntText(value)) && end == p + |IntText(value)|
  {
    var q, v := p, value;
    if value < 0 {
      PutByte(a, p, MINUS);
      q, v := p + 1, -value;
      SpliceAppend(old(a[..]), p, [MINUS], Dec(v));
    }
    end := PutD(a, q, v);
  }

  // ----- Hexadecimal -----

  function HexDigit(d: nat): Byte
    requires d < 16
  {
    if d < 10 then 48 + d else 87 + d
  }

  function HexValue(c: Byte): int {
    if c < 58 then c as int - 48 else c as int - 87
  }

  function HexText(v: nat): (r: Bytes)
    ensures |r| > 0
  {
    if v < 16 then [HexDigit(v)] else HexText(v / 16) + [HexDigit(v % 16)]
  }

  function ParseHex(s: Bytes): int {
    if s == [] then 0 else ParseHex(s[..|s| - 1]) * 16 + HexValue(s[|s| - 1])
  }

  lemma {:induction false} HexRoundTrip(v: nat)
    ensures ParseHex(HexText(v)) == v && (v > 0 ==> HexText(v)[0] != ZERO)
    ensures v == 0 ==> HexText(v) == [ZERO]
  {
    if v < 16 {
      assert HexText(v)[..0] == [];
    } else {
      HexRoundTrip(v / 16);
      assert HexText(v)[..|HexText(v)| - 1] == HexText(v / 16);
    }
  }

  /** What the loop has printed once it has come down to bit `i`: the text of `w == v >> i`. */
  function HexSoFar(w: nat): Bytes {
    if w == 0 then [] else HexText(w)
  }

  lemma {:induction false} HexStep(w: nat)
    ensures HexText(w) == HexSoFar(w / 16) + [HexDigit(w % 16)]
  {
  }

  lemma {:induction false} HexGrows(w: nat, v: nat)
    requires w <= v
    ensures |HexText(w)| <= |HexText(v)|
  {
    if w >= 16 {
      HexGrows(w / 16, v / 16);
    }
  }

  lemma {:induction false} ShiftShrinks(v: nat, i: nat)
    ensures v / Pow2(i) <= v
  {
    if i > 0 {
      ShiftShrinks(v, i - 1);
      DivPow2(v, i - 1, 1);
    }
  }

  lemma {:induction false} NextNibble(v: nat, i: nat)
    ensures v / Pow2(i + 4) == v / Pow2(i) / 16
    ensures v / Pow2(i + 4) > 0 ==> v / Pow2(i) > 0
  {
    DivPow2(v, i, 4);
    assert Pow2(4) == 16;
  }

  lemma {:induction false} TopNibble(v: nat, bits: nat, i: nat)
    requires bits == (if v > 0 then BitLength(v) else 4) && i < bits <= i + 4
    ensures v > 0 ==> v / Pow2(i) > 0
    ensures v / Pow2(i) / 16 == 0
  {
    NextNibble(v, i);
    Pow2Monotone(bits, i + 4);
    DivZeroIff(v, Pow2(i + 4));
    if v > 0 {
      Pow2Monotone(i, bits - 1);
      DivZeroIff(v, Pow2(i));
    }
  }

  /** Nibbles from the highest set one down; `ALIGN(n, 4)` rounds `n` up to a multiple of four. */
  method PutHex(a: array<Byte>, p: nat, v: nat) returns (end: nat)
    requires v <= MAX_U64 && p + |HexText(v)| <= a.Length
    modifies a
    ensures a[..] == Splice(old(a[..]), p, HexText(v)) && end == p + |HexText(v)|
  {
    ghost var was, out: Bytes := a[..], [];
    var bits := if v > 0 then BitLength(v) else 4;
    var i := (bits + 3) / 4 * 4 - 4;
    ghost var n := (bits + 3) / 4 - 1;
    SpliceNothing(was, p);
    TopNibble(v, bits, 4 * n);
    end := p;
    ghost var w := v / Pow2(4 * n);
    while true
      invariant i == 4 * n && 0 <= n && w == v / Pow2(4 * n)
      invariant v > 0 ==> w > 0
      invariant v == 0 ==> n == 0
      invariant out == HexSoFar(w / 16) && end == p + |out|
      invariant end <= a.Length && a[..] == Splice(was, p, out)
      decreases n
    {
      var c := HexDigit(v / Pow2(i) % 16);
      HexStep(w);
      ShiftShrinks(v, i);
      HexGrows(w, v);
      end := AppendByte(a, was, p, out, end, c);
      out := out + [c];
      assert out == HexText(w);
      i := i - 4;
      if i < 0 { break; }
      n := n - 1;
      NextNibble(v, 4 * n);
      assert w == v / Pow2(4 * n + 4);
      w := v / Pow2(4 * n);
    }
    assert n == 0 && Pow2(0) == 1 && v / 1 == v;
  }

  // ----- Thousandths -----

  function Thousandths(r: nat): (s: Bytes)
    requires r < 1000
    ensures |s| == 3 && AllDigits(s)
  {
    [Digit(r / 100), Digit(r / 10 % 10), Digit(r % 10)]
  }

  function FixedText(value: int): Bytes {
    var m := if value < 0 then -value else value;
    (if value < 0 then [MINUS] else []) + Dec(m / 1000) + [DOT] + Thousandths(m % 1000)
  }

  /** The division-free digit split of `put_f`. */
  lemma {:induction false} ReciprocalTenth(r: nat, s3: nat, s2: nat)
    requires r < 1000 && s3 == r % 100 && s2 == s3 * 0xcd / 2048
    ensures s2 == s3 / 10 == r / 10 % 10 && s3 - 10 * s2 == r % 10
  {
    var q, t := s3 / 10, s3 % 10;
    DivModUnique(s3 * 0xcd, 2048, q, 2 * q + 205 * t);
    DivModUnique(r / 10, 10, r / 100, q);
    DivModUnique(r, 10, r / 10, t);
  }

  lemma {:induction false} ThousandthsRoundTrip(r: nat)
    requires r < 1000
    ensures ParseDec(Thousandths(r)) == r
  {
    var s := Thousandths(r);
    assert s[..2][..1] == s[..1] && s[..1][..0] == [];
    assert ParseDec(s[..1]) == r / 100;
    assert ParseDec(s[..2]) == r / 10;
  }

  /** The printed text is the sign, the integral part and exactly three digits of thousandths. */
  lemma {:induction false} FixedMeans(value: int)
    ensures var m := if value < 0 then -value else value;
      && FixedText(value) == (if value < 0 then [MINUS] else []) + Dec(m / 1000) + [DOT] + Thousandths(m % 1000)
      && Canonical(Dec(m / 1000)) && AllDigits(Thousandths(m % 1000))
      && ParseDec(Dec(m / 1000)) * 1000 + ParseDec(Thousandths(m % 1000)) == m
  {
    var m := if value < 0 then -value else value;
    DecRoundTrip(m / 1000);
    ThousandthsRoundTrip(m % 1000);
  }

  lemma {:induction false} FixedPieces(value: int, sign: Bytes, u: nat, r: nat)
    requires sign == if value < 0 then [MINUS] else []
    requires u == (if value < 0 then -value else value) / 1000
    requires r == (if value < 0 then -value else value) % 1000
    ensures FixedText(value) == sign + Dec(u) + ([DOT] + Thousandths(r))
  {
  }

  /** The point and three digits that `put_char4` stores. */
  method SplitThousandths(r: nat) returns (text: Bytes)
    requires r < 1000
    ensures text == [DOT] + Thousandths(r)
  {
    var s3, h := r % 100, r / 100;
    var s2 := s3 * 0xcd / 2048;
    ReciprocalTenth(r, s3, s2);
    var s1 := s3 - 10 * s2;
    text := [DOT, Digit(h), Digit(s2), Digit(s1)];
  }

  /** `value` is the thousandths of the printed number, already truncated to an integer. */
  method PutF(a: array<Byte>, p: nat, value: int) returns (end: nat)
    requires -0x8000_0000 * 1000 < value < 0x8000_0000 * 1000
    requires p + |FixedText(value)| <= a.Length
    modifies a
    ensures a[..] == Splice(old(a[..]), p, FixedText(value)) && end == p + |FixedText(value)|
  {
    hide Dec, FixedText, Thousandths, Splice;
    ghost var was, sign: Bytes := a[..], if value < 0 then [MINUS] else [];
    var q, v := p, value;
    ghost var m := if value < 0 then -value else value;
    FixedPieces(value, sign, m / 1000, m % 1000);
    SpliceNothing(was, p);
    if value < 0 {
      PutByte(a, p, MINUS);
      q, v := p + 1, -value;
    }
    var u, r := v / 1000, v % 1000;
    q := PutD(a, q, u);
    SpliceAppend(was, p, sign, Dec(u));
    var text := SplitThousandths(r);
    PutBytes(a, q, text);
    SpliceAppend(was, p, sign + Dec(u), text);
    end := q + 4;
  }

  // ----- Examples -----

  lemma {:induction false} DecDigit(v: nat, d: nat)
    requires d < 10
    ensures v > 0 ==> Dec(v * 10 + d) == Dec(v) + [48 + d]
    ensures Dec(d) == [48 + d]
  {
  }

  lemma {:induction false} HexMore(v: nat, d: nat)
    requires d < 16
    ensures v > 0 ==> HexText(v * 16 + d) == HexText(v) + [if d < 10 then 48 + d else 87 + d]
    ensures HexText(d) == [if d < 10 then 48 + d else 87 + d]
  {
  }

  /** 1024, -7, 0xbeef and -12.345. */
  lemma {:induction false} TextExamples()
    ensures Dec(1024) == [49, 48, 50, 52] && IntText(-7) == [45, 55]
    ensures HexText(48879) == [98, 101, 101, 102] && FixedText(-12345) == [45, 49, 50, 46, 51, 52, 53]
  {
    hide Dec, HexText;
    DecDigit(0, 1);
    DecDigit(1, 0);
    DecDigit(10, 2);
    DecDigit(102, 4);
    DecDigit(0, 7);
    HexMore(0, 11);
    HexMore(11, 14);
    HexMore(190, 14);
    HexMore(3054, 15);
    DecDigit(1, 2);
  }

  /** How the readers used above read one more character. */
  lemma {:induction false} ParseMeans(s: Bytes, c: Byte)
    ensures ParseDec([]) == 0 && ParseDec(s + [c]) == 10 * ParseDec(s) + (c as int - 48)
    ensures ParseHex([]) == 0
    ensures ParseHex(s + [c]) == 16 * ParseHex(s) + (if c <= 57 then c as int - 48 else c as int - 97 + 10)
    ensures ParseInt([45] + s) == -ParseDec(s) && (s != [] && s[0] != 45 ==> ParseInt(s) == ParseDec(s))
  {
    assert (s + [c])[..|s|] == s;
    assert ([45] + s)[1..] == s;
  }
}
