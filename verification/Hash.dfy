/** The two string hashes of include/hash.h. */
module Hash {
  import opened Bits

  const WORD: nat := 0x1_0000_0000
  const DJB_SEED: nat := 5381
  const HASH0_SEED: nat := 38873

  /** A byte read through a `char`, which is signed on the target. */
  function Signed(b: Byte): int {
    if b < 128 then b else b - 256
  }

  /** The plain left fold `h * mul + c` over unsigned 32-bit words. */
  function Fold(mul: nat, h: nat, p: Bytes): (r: nat)
    requires h < WORD
    ensures r < WORD
  {
    if p == [] then h
    else (Fold(mul, h, p[..|p| - 1]) * mul + Signed(p[|p| - 1])) % WORD
  }

  function DjbHash(p: Bytes): (r: nat)
    ensures r < 0x8000_0000
  {
    Fold(33, DJB_SEED, p) % 0x8000_0000
  }

  function Hash0(p: Bytes): (r: nat)
    ensures r < 0x8000_0000
  {
    Fold(31, HASH0_SEED, p) % 0x8000_0000
  }

  /** Bytes consumed by a Duff loop that entered at residue `len % 4`, with `n` rounds still to start. */
  function Left(n: nat, entry: nat): nat {
    if entry == 0 || n == 0 then 4 * n else 4 * (n - 1) + entry
  }

  /** `hash = ((hash << 5) + hash) + *p++` with every operation wrapping at 32 bits. */
  method DjbStep(h: nat, p: Bytes, i: nat) returns (h': nat, i': nat)
    requires h < WORD && i < |p|
    requires h == Fold(33, DJB_SEED, p[..i])
    ensures i' == i + 1 && h' < WORD
    ensures h' == Fold(33, DJB_SEED, p[..i'])
  {
    var shifted := h * 32 % WORD;
    var sum := (shifted + h) % WORD;
    h' := (sum + Signed(p[i])) % WORD;
    ModAdd(h * 32, h, WORD);
    ModAdd(h * 33, Signed(p[i]), WORD);
    i' := i + 1;
    assert p[..i'][..i] == p[..i];
  }

  lemma {:induction false} Pow2Doubling()
    ensures Pow2(31) == 0x8000_0000
  {
    assert Pow2(8) == 0x100;
    assert Pow2(16) == 0x1_0000;
    assert Pow2(24) == 0x100_0000;
  }

  /** Duff's device: the first round enters at case `len % 4`, later rounds run all four steps. */
  method DuffDjbHash(p: Bytes) returns (hash: nat)
    requires |p| > 0
    ensures hash == DjbHash(p)
  {
    var h, i := DJB_SEED, 0;
    var n := (|p| + 3) / 4;
    var entry := |p| % 4;
    assert p[..0] == [];
    while true
      invariant h < WORD && 0 < n && 0 <= entry < 4 && 0 <= i
      invariant i + Left(n, entry) == |p|
      invariant h == Fold(33, DJB_SEED, p[..i])
      decreases n
    {
      if entry == 0 { h, i := DjbStep(h, p, i); }
      if entry == 0 || entry == 3 { h, i := DjbStep(h, p, i); }
      if entry == 0 || entry == 3 || entry == 2 { h, i := DjbStep(h, p, i); }
      h, i := DjbStep(h, p, i);
      entry, n := 0, n - 1;
      if n == 0 { break; }
    }
    assert p[..i] == p;
    assert Pow2(31) == 0x8000_0000 by { Pow2Doubling(); }
    MaskIsMod(h, 31);
    hash := BitAnd(h, 0x7fff_ffff);
  }

  /** `hash = (*p++) + 31 * hash`, wrapping at 32 bits. */
  method Hash0Step(h: nat, p: Bytes, i: nat) returns (h': nat, i': nat)
    requires h < WORD && i < |p|
    requires h == Fold(31, HASH0_SEED, p[..i])
    ensures i' == i + 1 && h' < WORD
    ensures h' == Fold(31, HASH0_SEED, p[..i'])
  {
    var product := 31 * h % WORD;
    h' := (Signed(p[i]) + product) % WORD;
    ModAdd(31 * h, Signed(p[i]), WORD);
    i' := i + 1;
    assert p[..i'][..i] == p[..i];
  }

  method DuffHash0(p: Bytes) returns (hash: nat)
    requires |p| > 0
    ensures hash == Hash0(p)
  {
    var h, i := HASH0_SEED, 0;
    var n := (|p| + 3) / 4;
    var entry := |p| % 4;
    assert p[..0] == [];
    while true
      invariant h < WORD && 0 < n && 0 <= entry < 4 && 0 <= i
      invariant i + Left(n, entry) == |p|
      invariant h == Fold(31, HASH0_SEED, p[..i])
      decreases n
    {
      if entry == 0 { h, i := Hash0Step(h, p, i); }
      if entry == 0 || entry == 3 { h, i := Hash0Step(h, p, i); }
      if entry == 0 || entry == 3 || entry == 2 { h, i := Hash0Step(h, p, i); }
      h, i := Hash0Step(h, p, i);
      entry, n := 0, n - 1;
      if n == 0 { break; }
    }
    assert p[..i] == p;
    assert Pow2(31) == 0x8000_0000 by { Pow2Doubling(); }
    MaskIsMod(h, 31);
    hash := BitAnd(h, 0x7fff_ffff);
  }

  /** One more character: the recurrences of the two hashes before the final mask, and the mask. */
  lemma {:induction false} HashRecurrence(p: Bytes, c: Byte)
    ensures var signed := if c < 128 then c as int else c as int - 256;
      && Fold(33, 5381, p + [c]) == (Fold(33, 5381, p) * 33 + signed) % 4294967296
      && Fold(31, 38873, p + [c]) == (Fold(31, 38873, p) * 31 + signed) % 4294967296
    ensures Fold(33, 5381, []) == 5381 && Fold(31, 38873, []) == 38873
    ensures DjbHash(p) == Fold(33, 5381, p) % 2147483648 && Hash0(p) == Fold(31, 38873, p) % 2147483648
  {
    assert (p + [c])[..|p|] == p;
  }
}
