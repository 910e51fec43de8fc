/**
 * 18-bit words of the PDP-1 and the ones'-complement checksum that closes
 * every Notes and Bars block of a Harmony Compiler intermediate tape.
 */
module Word18 {

  /** 2^18: every word on the tape is below this. */
  const WordLimit: nat := 0x4_0000
  /** 0777777: the largest word, and the modulus of ones'-complement arithmetic. */
  const WordMask: nat := 0x3_FFFF
  /** 0600000: the separator that ends a bar (in Notes) or the Bars block. */
  const Separator: nat := 0x3_0000
  /** 0700000: the tag of a tempo word. */
  const TempoTag: nat := 0x3_8000
  /** 2^15: a tempo word carries its parameter in the low 15 bits (077777). */
  const TempoRange: nat := 0x8000
  /** 2^32: the range of the C code's uint32_t. */
  const UInt32Limit: nat := 0x1_0000_0000

  predicate IsWord(w: int) { 0 <= w < WordLimit }

  predicate AllWords(ws: seq<nat>) { forall i :: 0 <= i < |ws| ==> ws[i] < WordLimit }

  /** (w & 0700000) == 0700000 */
  predicate IsTempo(w: nat) { (w / TempoRange) % 8 == 7 }

  /** Division by a power of two m, the shift of the C code, splits x into its high and low part. */
  lemma Split(x: nat, m: nat, hi: nat, lo: nat)
    requires m in {2, 4, 64, 128} && lo < m && x == hi * m + lo
    ensures x / m == hi && x % m == lo
  {
  }

  /** Two shifts in a row are one shift by the sum. */
  lemma ShiftTwice(x: nat, m: nat, n: nat)
    requires m in {64, 128, 8192, 32768} && n in {2, 4, 64}
    ensures x / (m * n) == (x / m) / n
  {
    var q1, r1 := x / m, x % m;
    var q2, r2 := q1 / n, q1 % n;
    assert x == q2 * (m * n) + (r2 * m + r1) by {
      assert x == q1 * m + r1;
      assert q1 == q2 * n + r2;
    }
    assert r2 * m + r1 < m * n by {
      assert r2 * m <= (n - 1) * m;
    }
  }

  /**
   * add_1s_complement: the uint32 sum, its bits above 17 folded back in
   * (end-around carry), masked to 18 bits. On 18-bit operands this is
   * ones'-complement addition: the plain sum, or the sum less 0777777 when
   * it carries out of bit 17.
   */
  function AddOnes(a: nat, b: nat): (r: nat)
    requires a < UInt32Limit && b < UInt32Limit
    ensures r < WordLimit
    ensures IsWord(a) && IsWord(b) ==>
              r == if a + b < WordLimit then a + b else a + b - WordMask
  {
    var sum := (a + b) % UInt32Limit;
    (sum % WordLimit + sum / WordLimit) % WordLimit
  }

  /** The two laws the checksum relies on: order does not matter, 0 is neutral. */
  lemma AddOnesLaws(a: nat, b: nat)
    requires IsWord(a) && IsWord(b)
    ensures AddOnes(a, b) == AddOnes(b, a)
    ensures AddOnes(a, 0) == a
  {
  }

  /** Plain integer sum of a sequence of words. */
  function Sum(ws: seq<nat>): nat
  {
    if ws == [] then 0 else Sum(ws[..|ws| - 1]) + ws[|ws| - 1]
  }

  /** The block checksum: add_1s_complement folded over the content words, starting from 0. */
  function Checksum(ws: seq<nat>): (r: nat)
    requires AllWords(ws)
    ensures r < WordLimit
  {
    if ws == [] then 0 else AddOnes(Checksum(ws[..|ws| - 1]), ws[|ws| - 1])
  }

  /**
   * The value of the fold is fixed by the plain sum alone: 0 for an
   * all-zero block, otherwise the residue of the sum modulo 0777777 taken in
   * 1..0777777 (ones'-complement "minus zero" 0777777 stands for residue 0).
   */
  lemma {:induction false} ChecksumClosedForm(ws: seq<nat>)
    requires AllWords(ws)
    ensures Checksum(ws) == if Sum(ws) == 0 then 0 else (Sum(ws) - 1) % WordMask + 1
  {
    if ws != [] {
      var p := ws[..|ws| - 1];
      ChecksumClosedForm(p);
      FoldStep(Sum(p), Checksum(p), ws[|ws| - 1]);
    }
  }

  /** One step of the fold keeps the closed form of Checksum. */
  lemma FoldStep(s: nat, c: nat, w: nat)
    requires IsWord(w)
    requires c == if s == 0 then 0 else (s - 1) % WordMask + 1
    ensures c < WordLimit
    ensures AddOnes(c, w) == if s + w == 0 then 0 else (s + w - 1) % WordMask + 1
  {
    if s > 0 {
      var k := (s - 1) / WordMask;
      assert s - 1 == k * WordMask + (c - 1);
      assert s + w - 1 == k * WordMask + (c - 1 + w);
      ModShift(k, c - 1 + w);
    }
  }

  lemma ModShift(k: nat, x: nat)
    ensures (k * WordMask + x) % WordMask == x % WordMask
  {
    if k > 0 {
      ModShift(k - 1, x);
      assert k * WordMask + x == (k - 1) * WordMask + x + WordMask;
    }
  }

  function Abs(x: int): nat { if x < 0 then -x else x }

  lemma {:induction false} SumUpdate(ws: seq<nat>, i: nat, v: nat)
    requires i < |ws|
    ensures Sum(ws[i := v]) == Sum(ws) - ws[i] + v
  {
    var n := |ws| - 1;
    assert ws[i := v][..n] == if i < n then ws[..n][i := v] else ws[..n];
    if i < n {
      SumUpdate(ws[..n], i, v);
    }
  }

  /** Two naturals with the same residue modulo 0777777 are equal or 0777777 apart. */
  lemma SameResidue(x: nat, y: nat)
    requires x % WordMask == y % WordMask && x != y
    ensures Abs(x - y) >= WordMask
  {
    var q, q' := x / WordMask, y / WordMask;
    assert x - y == (q - q') * WordMask;
  }

  /**
   * Replacing one content word by another 18-bit word whose value differs
   * by less than 0777777 always changes the checksum, so verify_checksum
   * rejects the block.
   */
  lemma {:induction false} ChangeDetected(ws: seq<nat>, i: nat, v: nat)
    requires AllWords(ws) && i < |ws| && IsWord(v)
    requires 0 < Abs(v - ws[i]) < WordMask
    ensures AllWords(ws[i := v])
    ensures Checksum(ws[i := v]) != Checksum(ws)
  {
    var ws' := ws[i := v];
    ChecksumClosedForm(ws);
    ChecksumClosedForm(ws');
    SumUpdate(ws, i, v);
    var s, s' := Sum(ws), Sum(ws');
    assert s' - s == v - ws[i];
    if s > 0 && s' > 0 && (s - 1) % WordMask == (s' - 1) % WordMask {
      SameResidue(s - 1, s' - 1);
    }
  }

  /** The value of bit k of an 18-bit word, k = 0 .. 17. */
  const Bits: seq<nat> := [
    0x1, 0x2, 0x4, 0x8, 0x10, 0x20, 0x40, 0x80, 0x100, 0x200, 0x400, 0x800,
    0x1000, 0x2000, 0x4000, 0x8000, 0x1_0000, 0x2_0000]

  /**
   * A single-bit error in one content word (the word gains or loses bit k)
   * is always caught by the block checksum.
   */
  lemma BitFlipDetected(ws: seq<nat>, i: nat, k: nat, v: nat)
    requires AllWords(ws) && i < |ws| && IsWord(v) && k < |Bits|
    requires v == ws[i] + Bits[k] || v + Bits[k] == ws[i]
    ensures AllWords(ws[i := v])
    ensures Checksum(ws[i := v]) != Checksum(ws)
  {
    ChangeDetected(ws, i, v);
  }
}
