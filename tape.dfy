/**
 * Paper-tape frames and 18-bit words: rpb (three binary frames make a word,
 * blank frames before it are its gap), ppb (a word back to three frames),
 * runs of blank frames, and the reader and writer that both drivers share.
 */
module Tape {
  import opened Word18

  /** One tape frame: a byte as returned by fgetc. */
  type Frame = b: int | 0 <= b < 256

  /** c & 0200: a binary frame carries six data bits; any other frame is blank. */
  predicate IsBinary(c: Frame) { c >= 0x80 }

  /** c & 077: the data bits of a binary frame (bit 0100 is ignored). */
  function Low6(c: Frame): nat { c % 64 }

  /** What one call of rpb reports. */
  datatype Assembly =
    | Assembled(word: nat, gap: nat, inner: nat, next: nat)   // a word, and the frame after it
    | EndOfTape(gap: nat, inner: nat)                          // EOF before the third binary frame

  /** 64^i for the i binary frames already shifted into the word. */
  function Scale(i: nat): nat
  {
    if i == 0 then 1 else if i == 1 then 64 else if i == 2 then 4096 else WordLimit
  }

  /**
   * The loop of rpb from the state (pos, i binary frames so far, word, gap,
   * inner): a blank frame counts as gap before the first binary frame and as
   * an inner frame after it.
   */
  function Assemble(tape: seq<Frame>, pos: nat, i: nat, word: nat, gap: nat, inner: nat): (r: Assembly)
    requires pos <= |tape| && i <= 3 && word < Scale(i)
    ensures r.Assembled? ==> r.word < WordLimit && pos + 3 - i <= r.next <= |tape|
    ensures r.gap >= gap && r.inner >= inner
    ensures i > 0 ==> r.gap == gap
    decreases |tape| - pos
  {
    if i == 3 then Assembled(word, gap, inner, pos)
    else if pos == |tape| then EndOfTape(gap, inner)
    else if IsBinary(tape[pos]) then Assemble(tape, pos + 1, i + 1, word * 64 + Low6(tape[pos]), gap, inner)
    else if i > 0 then Assemble(tape, pos + 1, i, word, gap, inner + 1)
    else Assemble(tape, pos + 1, i, word, gap + 1, inner)
  }

  /** rpb called with the stream at position pos. */
  function Next(tape: seq<Frame>, pos: nat): (r: Assembly)
    requires pos <= |tape|
    ensures r.Assembled? ==> r.word < WordLimit && pos + 3 <= r.next <= |tape|
  {
    Assemble(tape, pos, 0, 0, 0, 0)
  }

  /** The stream position after rpb: past the word, or at the end of the tape. */
  function After(tape: seq<Frame>, r: Assembly): nat
  {
    if r.Assembled? then r.next else |tape|
  }

  /** rpb: read frames until three binary frames have been shifted into the word. */
  method Rpb(tape: seq<Frame>, pos: nat) returns (r: Assembly)
    requires pos <= |tape|
    ensures r == Next(tape, pos)
  {
    var word: nat, gap: nat, inner: nat, i: nat, p: nat := 0, 0, 0, 0, pos;
    while i < 3
      invariant pos <= p <= |tape| && i <= 3 && word < Scale(i)
      invariant Assemble(tape, p, i, word, gap, inner) == Next(tape, pos)
      decreases |tape| - p
    {
      if p == |tape| {
        return EndOfTape(gap, inner);
      }
      var c := tape[p];
      p := p + 1;
      if IsBinary(c) {
        word := word * 64 + Low6(c);
        i := i + 1;
      } else if i > 0 {
        inner := inner + 1;
      } else {
        gap := gap + 1;
      }
    }
    r := Assembled(word, gap, inner, p);
  }

  /** The value of n binary frames from position q, most significant first. */
  function Tail(tape: seq<Frame>, q: nat, n: nat): nat
    requires q + n <= |tape|
    decreases n
  {
    if n == 0 then 0 else Low6(tape[q]) * Scale(n - 1) + Tail(tape, q + 1, n - 1)
  }

  /**
   * The layout behind a word r that rpb assembled from state (p, i, word,
   * gap): some blank frames, then the 3 - i binary frames still missing,
   * whose low six bits complete the word.
   */
  predicate Shaped(tape: seq<Frame>, p: nat, i: nat, word: nat, gap: nat, r: Assembly)
    requires r.Assembled? && i <= 3
  {
    && r.gap >= gap
    && r.next == p + (r.gap - gap) + 3 - i <= |tape|
    && (forall j :: p <= j < p + (r.gap - gap) ==> !IsBinary(tape[j]))
    && (forall j :: p + (r.gap - gap) <= j < r.next ==> IsBinary(tape[j]))
    && r.word == word * Scale(3 - i) + Tail(tape, p + (r.gap - gap), 3 - i)
  }

  /** A binary frame at p is the next of the missing frames. */
  lemma ShapeBinary(tape: seq<Frame>, p: nat, i: nat, word: nat, gap: nat, r: Assembly)
    requires p < |tape| && i < 3 && IsBinary(tape[p]) && r.Assembled? && r.gap == gap
    requires Shaped(tape, p + 1, i + 1, word * 64 + Low6(tape[p]), gap, r)
    ensures Shaped(tape, p, i, word, gap, r)
  {
    var l := Low6(tape[p]);
    assert Tail(tape, p, 3 - i) == l * Scale(2 - i) + Tail(tape, p + 1, 2 - i);
    if i == 0 {
      assert (word * 64 + l) * 4096 == word * WordLimit + l * 4096;
    } else if i == 1 {
      assert (word * 64 + l) * 64 == word * 4096 + l * 64;
    }
  }

  /** A blank frame at p, before any binary frame, belongs to the gap. */
  lemma ShapeBlank(tape: seq<Frame>, p: nat, word: nat, gap: nat, r: Assembly)
    requires p < |tape| && !IsBinary(tape[p]) && r.Assembled?
    requires Shaped(tape, p + 1, 0, word, gap + 1, r)
    ensures Shaped(tape, p, 0, word, gap, r)
  {
  }

  lemma {:induction false} AssembleShape(tape: seq<Frame>, p: nat, i: nat, word: nat, gap: nat, inner: nat)
    requires p <= |tape| && i <= 3 && word < Scale(i)
    requires Assemble(tape, p, i, word, gap, inner).Assembled?
    requires Assemble(tape, p, i, word, gap, inner).inner == inner
    ensures Shaped(tape, p, i, word, gap, Assemble(tape, p, i, word, gap, inner))
    decreases |tape| - p
  {
    var r := Assemble(tape, p, i, word, gap, inner);
    if i < 3 {
      if IsBinary(tape[p]) {
        AssembleShape(tape, p + 1, i + 1, word * 64 + Low6(tape[p]), gap, inner);
        ShapeBinary(tape, p, i, word, gap, r);
      } else if i == 0 {
        AssembleShape(tape, p + 1, 0, word, gap + 1, inner);
        ShapeBlank(tape, p, word, gap, r);
      } else {
        assert false;
      }
    }
  }

  /**
   * A word read without inner blank frames is exactly: `gap` blank frames,
   * then three binary frames whose low six bits, most significant first,
   * are the word.
   */
  lemma NextShape(tape: seq<Frame>, pos: nat)
    requires pos <= |tape|
    requires Next(tape, pos).Assembled? && Next(tape, pos).inner == 0
    ensures var r := Next(tape, pos);
      && r.next == pos + r.gap + 3
      && (forall j :: pos <= j < pos + r.gap ==> !IsBinary(tape[j]))
      && IsBinary(tape[pos + r.gap]) && IsBinary(tape[pos + r.gap + 1]) && IsBinary(tape[pos + r.gap + 2])
      && r.word == Low6(tape[pos + r.gap]) * 4096 + Low6(tape[pos + r.gap + 1]) * 64 + Low6(tape[pos + r.gap + 2])
  {
    AssembleShape(tape, pos, 0, 0, 0, 0);
  }

  /** Three binary frames in a row complete a word that rpb started with no data yet. */
  lemma AssembleTriple(tape: seq<Frame>, q: nat, g: nat)
    requires q + 3 <= |tape|
    requires IsBinary(tape[q]) && IsBinary(tape[q + 1]) && IsBinary(tape[q + 2])
    ensures Assemble(tape, q, 0, 0, g, 0) == Assembled(Tail(tape, q, 3), g, 0, q + 3)
  {
    var l0, l1, l2 := Low6(tape[q]), Low6(tape[q + 1]), Low6(tape[q + 2]);
    assert Assemble(tape, q + 2, 2, l0 * 64 + l1, g, 0) == Assembled((l0 * 64 + l1) * 64 + l2, g, 0, q + 3);
    assert Assemble(tape, q + 1, 1, l0, g, 0) == Assemble(tape, q + 2, 2, l0 * 64 + l1, g, 0);
    assert Tail(tape, q, 3) == l0 * 4096 + Tail(tape, q + 1, 2);
    assert Tail(tape, q + 1, 2) == l1 * 64 + Tail(tape, q + 2, 1);
  }

  lemma {:induction false} AssembleFrames(tape: seq<Frame>, pos: nat, g: nat, k: nat)
    requires k <= g && pos + g + 3 <= |tape|
    requires forall j :: pos <= j < pos + g ==> !IsBinary(tape[j])
    requires IsBinary(tape[pos + g]) && IsBinary(tape[pos + g + 1]) && IsBinary(tape[pos + g + 2])
    ensures Assemble(tape, pos + k, 0, 0, k, 0) == Assembled(Tail(tape, pos + g, 3), g, 0, pos + g + 3)
    decreases g - k
  {
    if k < g {
      assert !IsBinary(tape[pos + k]);
      AssembleFrames(tape, pos, g, k + 1);
    } else {
      AssembleTriple(tape, pos + g, g);
    }
  }

  /**
   * The converse of NextShape: `g` blank frames followed by three binary
   * frames are read as one word with gap `g` and no inner frames.
   */
  lemma NextOfFrames(tape: seq<Frame>, pos: nat, g: nat)
    requires pos + g + 3 <= |tape|
    requires forall j :: pos <= j < pos + g ==> !IsBinary(tape[j])
    requires IsBinary(tape[pos + g]) && IsBinary(tape[pos + g + 1]) && IsBinary(tape[pos + g + 2])
    ensures Next(tape, pos)
         == Assembled(Low6(tape[pos + g]) * 4096 + Low6(tape[pos + g + 1]) * 64 + Low6(tape[pos + g + 2]),
                      g, 0, pos + g + 3)
  {
    AssembleFrames(tape, pos, g, 0);
    var q := pos + g;
    assert Tail(tape, q, 3) == Low6(tape[q]) * 4096 + Tail(tape, q + 1, 2);
    assert Tail(tape, q + 1, 2) == Low6(tape[q + 1]) * 64 + Tail(tape, q + 2, 1);
  }

  lemma {:induction false} AssembleBlanks(tape: seq<Frame>, pos: nat, k: nat)
    requires pos + k <= |tape|
    requires forall j :: pos <= j < |tape| ==> !IsBinary(tape[j])
    ensures Assemble(tape, pos + k, 0, 0, k, 0) == EndOfTape(|tape| - pos, 0)
    decreases |tape| - pos - k
  {
    if pos + k < |tape| {
      AssembleBlanks(tape, pos, k + 1);
    }
  }

  /** Blank frames up to the end of the tape: rpb reports EOF with all of them as gap. */
  lemma NextOfBlanks(tape: seq<Frame>, pos: nat)
    requires pos <= |tape|
    requires forall j :: pos <= j < |tape| ==> !IsBinary(tape[j])
    ensures Next(tape, pos) == EndOfTape(|tape| - pos, 0)
  {
    AssembleBlanks(tape, pos, 0);
  }

  /** ppb's j-th frame of w: bit 0200 set, then bits 17-12, 11-6 or 5-0. */
  function FrameOf(w: nat, j: nat): (f: Frame)
    requires j < 3
    ensures IsBinary(f)
  {
    0x80 + (w / Scale(2 - j)) % 64
  }

  /** ppb: one word as three binary frames. */
  function Ppb(w: nat): (f: seq<Frame>)
    ensures |f| == 3 && forall j :: 0 <= j < 3 ==> IsBinary(f[j])
  {
    [FrameOf(w, 0), FrameOf(w, 1), FrameOf(w, 2)]
  }

  /** A sequence of words, each written by ppb. */
  function EncodeWords(ws: seq<nat>): (f: seq<Frame>)
    ensures |f| == 3 * |ws|
  {
    seq(3 * |ws|, k requires 0 <= k < 3 * |ws| => FrameOf(ws[k / 3], k % 3))
  }

  /** write_gap: `length` zero frames (none when length is not positive). */
  function Blanks(length: int): (f: seq<Frame>)
    ensures |f| == if length < 0 then 0 else length
    ensures forall j :: 0 <= j < |f| ==> f[j] == 0
  {
    seq(if length < 0 then 0 else length, _ => 0)
  }

  /** The low six bits of a frame that ppb punched for the value x. */
  lemma LowOfFrame(x: nat)
    ensures Low6(0x80 + x % 64) == x % 64
  {
    var r := x % 64;
    Split(0x80 + r, 64, 2, r);
  }

  /** The three frames ppb writes are binary and carry the word, six bits each, most significant first. */
  lemma PpbFrames(w: nat)
    requires IsWord(w)
    ensures var f := Ppb(w);
      && IsBinary(f[0]) && IsBinary(f[1]) && IsBinary(f[2])
      && w == Low6(f[0]) * 4096 + Low6(f[1]) * 64 + Low6(f[2])
  {
    var f := Ppb(w);
    var hi, mid, lo := (w / 4096) % 64, (w / 64) % 64, w % 64;
    assert Low6(f[0]) == hi by { LowOfFrame(w / 4096); }
    assert Low6(f[1]) == mid by { LowOfFrame(w / 64); }
    assert Low6(f[2]) == lo by { LowOfFrame(w / 1); }
    assert w == hi * 4096 + mid * 64 + lo by {
      ShiftTwice(w, 64, 64);
      assert w / 4096 < 64;
      Split(w / 64, 64, w / 4096, mid);
      Split(w, 64, w / 64, lo);
    }
  }

  /** rpb reads back what ppb wrote: the word itself, with no gap and no inner frames. */
  lemma PpbRoundTrip(w: nat, rest: seq<Frame>)
    requires IsWord(w)
    ensures Next(Ppb(w) + rest, 0) == Assembled(w, 0, 0, 3)
  {
    var tape := Ppb(w) + rest;
    PpbFrames(w);
    assert tape[0] == Ppb(w)[0] && tape[1] == Ppb(w)[1] && tape[2] == Ppb(w)[2];
    NextOfFrames(tape, 0, 0);
  }

  lemma EncodeWordsSnoc(ws: seq<nat>, w: nat)
    ensures EncodeWords(ws + [w]) == EncodeWords(ws) + Ppb(w)
  {
    var a, b := EncodeWords(ws + [w]), EncodeWords(ws) + Ppb(w);
    forall k | 0 <= k < |a| ensures a[k] == b[k] {
      if k >= 3 * |ws| {
        assert k / 3 == |ws|;
      }
    }
  }

  /** How rpb stopped while a driver read several words in a row. */
  datatype Stop = Complete | StoppedAtEof(gap: nat) | StoppedAtInner(frames: nat)

  /** The words read, the gap before each, the position reached and how reading stopped. */
  datatype Scan = Scan(words: seq<nat>, gaps: seq<nat>, next: nat, stop: Stop)

  /**
   * Up to k successive calls of read_next_word from pos: reading stops at the
   * first EOF or at the first word with inner blank frames.
   */
  function ReadWords(tape: seq<Frame>, pos: nat, k: nat): (s: Scan)
    requires pos <= |tape|
    ensures |s.words| == |s.gaps| <= k && pos <= s.next <= |tape| && AllWords(s.words)
    ensures s.stop.Complete? <==> |s.words| == k
    decreases k
  {
    if k == 0 then Scan([], [], pos, Complete)
    else
      var s := ReadWords(tape, pos, k - 1);
      if !s.stop.Complete? then s
      else
        match Next(tape, s.next)
        case Assembled(w, g, i, q) =>
          if i > 0 then Scan(s.words, s.gaps, q, StoppedAtInner(i))
          else Scan(s.words + [w], s.gaps + [g], q, Complete)
        case EndOfTape(g, i) =>
          if i > 0 then Scan(s.words, s.gaps, |tape|, StoppedAtInner(i))
          else Scan(s.words, s.gaps, |tape|, StoppedAtEof(g))
  }

  /** Reading fewer words reads a prefix; once reading has stopped, reading on changes nothing. */
  lemma {:induction false} ReadWordsPrefix(tape: seq<Frame>, pos: nat, j: nat, k: nat)
    requires pos <= |tape| && j <= k
    ensures var a, b := ReadWords(tape, pos, j), ReadWords(tape, pos, k);
      && (a.stop.Complete? ==> |b.words| >= j && b.words[..j] == a.words && b.gaps[..j] == a.gaps)
      && (!a.stop.Complete? ==> b == a)
    decreases k - j
  {
    if j < k {
      ReadWordsPrefix(tape, pos, j, k - 1);
    }
  }

  /** The gap list of an encoded run: `g` before the first word, none between words. */
  function GapsOf(g: nat, n: nat): (gs: seq<nat>)
    ensures |gs| == n
  {
    seq(n, i => if i == 0 then g else 0)
  }

  /** rpb over `gap` blank frames and the frames ppb wrote for w. */
  lemma NextOfEncoded(tape: seq<Frame>, start: nat, gap: nat, w: nat)
    requires IsWord(w) && start + gap + 3 <= |tape|
    requires tape[start..start + gap] == Blanks(gap)
    requires tape[start + gap..start + gap + 3] == Ppb(w)
    ensures Next(tape, start) == Assembled(w, gap, 0, start + gap + 3)
  {
    var q := start + gap;
    assert forall j :: start <= j < q ==> !IsBinary(tape[j]) by {
      forall j | start <= j < q ensures !IsBinary(tape[j]) {
        assert tape[j] == tape[start..q][j - start];
      }
    }
    assert tape[q] == Ppb(w)[0] && tape[q + 1] == Ppb(w)[1] && tape[q + 2] == Ppb(w)[2] by {
      assert tape[q..q + 3] == Ppb(w);
    }
    PpbFrames(w);
    NextOfFrames(tape, start, gap);
  }

  /** The i-th group of three frames that EncodeWords writes is ppb of the i-th word. */
  lemma EncodedGroup(ws: seq<nat>, i: nat)
    requires i < |ws|
    ensures EncodeWords(ws)[3 * i..3 * i + 3] == Ppb(ws[i])
  {
    var e := EncodeWords(ws);
    assert (3 * i) / 3 == i && (3 * i + 1) / 3 == i && (3 * i + 2) / 3 == i;
    assert e[3 * i..3 * i + 3] == [e[3 * i], e[3 * i + 1], e[3 * i + 2]];
  }

  /** A slice of a slice. */
  lemma SliceWithin(tape: seq<Frame>, pos: nat, region: seq<Frame>, a: nat, b: nat)
    requires pos + |region| <= |tape| && tape[pos..pos + |region|] == region
    requires a <= b <= |region|
    ensures tape[pos + a..pos + b] == region[a..b]
  {
    assert forall j :: a <= j < b ==> tape[pos + j] == region[j];
  }

  /** One more word read after a complete scan. */
  lemma ReadWordsStep(tape: seq<Frame>, pos: nat, k: nat, w: nat, gap: nat, q: nat)
    requires pos <= |tape| && k > 0
    requires ReadWords(tape, pos, k - 1).stop.Complete?
    requires Next(tape, ReadWords(tape, pos, k - 1).next) == Assembled(w, gap, 0, q)
    ensures var s := ReadWords(tape, pos, k - 1);
      ReadWords(tape, pos, k) == Scan(s.words + [w], s.gaps + [gap], q, Complete)
  {
  }

  /** Where the i-th encoded word starts: its gap comes first (only the first word has one). */
  function StartOf(pos: nat, g: nat, i: nat): nat
  {
    if i == 0 then pos else pos + g + 3 * i
  }

  function GapOf(g: nat, i: nat): nat
  {
    if i == 0 then g else 0
  }

  /** rpb, started where each encoded word starts, reads that word with its gap. */
  predicate WordsAt(tape: seq<Frame>, pos: nat, g: nat, ws: seq<nat>)
  {
    && pos <= |tape|
    && forall i :: 0 <= i < |ws| ==>
         StartOf(pos, g, i) <= |tape| &&
         Next(tape, StartOf(pos, g, i)) == Assembled(ws[i], GapOf(g, i), 0, StartOf(pos, g, i) + GapOf(g, i) + 3)
  }

  /** The gap before the i-th encoded word is blank. */
  lemma EncodedGap(tape: seq<Frame>, pos: nat, g: nat, ws: seq<nat>, i: nat)
    requires AllWords(ws) && i < |ws|
    requires pos + g + 3 * |ws| <= |tape|
    requires tape[pos..pos + g + 3 * |ws|] == Blanks(g) + EncodeWords(ws)
    ensures var start, gap := StartOf(pos, g, i), GapOf(g, i);
      tape[start..start + gap] == Blanks(gap)
  {
    var region := Blanks(g) + EncodeWords(ws);
    var start, gap := StartOf(pos, g, i), GapOf(g, i);
    SliceWithin(tape, pos, region, start - pos, start - pos + gap);
    assert region[start - pos..start - pos + gap] == Blanks(gap);
  }

  /** The three frames of the i-th encoded word are ppb of it. */
  lemma EncodedWord(tape: seq<Frame>, pos: nat, g: nat, ws: seq<nat>, i: nat)
    requires AllWords(ws) && i < |ws|
    requires pos + g + 3 * |ws| <= |tape|
    requires tape[pos..pos + g + 3 * |ws|] == Blanks(g) + EncodeWords(ws)
    ensures var start, gap := StartOf(pos, g, i), GapOf(g, i);
      tape[start + gap..start + gap + 3] == Ppb(ws[i])
  {
    var region := Blanks(g) + EncodeWords(ws);
    SliceWithin(tape, pos, region, g + 3 * i, g + 3 * i + 3);
    EncodedGroup(ws, i);
    SliceAfter(Blanks(g), EncodeWords(ws), 3 * i, 3 * i + 3);
  }

  /** A slice of the second part of a concatenation. */
  lemma SliceAfter(a: seq<Frame>, b: seq<Frame>, i: nat, j: nat)
    requires i <= j <= |b|
    ensures (a + b)[|a| + i..|a| + j] == b[i..j]
  {
    assert forall k :: i <= k < j ==> (a + b)[|a| + k] == b[k];
  }

  /** The frame layout of an encoded run, word by word, as rpb sees it. */
  lemma EncodedWordsAt(tape: seq<Frame>, pos: nat, g: nat, ws: seq<nat>)
    requires AllWords(ws)
    requires pos + g + 3 * |ws| <= |tape|
    requires tape[pos..pos + g + 3 * |ws|] == Blanks(g) + EncodeWords(ws)
    ensures WordsAt(tape, pos, g, ws)
  {
    forall i | 0 <= i < |ws|
      ensures StartOf(pos, g, i) <= |tape|
      ensures Next(tape, StartOf(pos, g, i)) == Assembled(ws[i], GapOf(g, i), 0, StartOf(pos, g, i) + GapOf(g, i) + 3)
    {
      EncodedGap(tape, pos, g, ws, i);
      EncodedWord(tape, pos, g, ws, i);
      NextOfEncoded(tape, StartOf(pos, g, i), GapOf(g, i), ws[i]);
    }
  }

  /** Bookkeeping of one step of ReadEncodedPrefix. */
  lemma ReadEncodedStep(tape: seq<Frame>, pos: nat, g: nat, ws: seq<nat>, k: nat)
    requires pos <= |tape| && 0 < k <= |ws|
    requires ReadWords(tape, pos, k - 1) == Scan(ws[..k - 1], GapsOf(g, k - 1), StartOf(pos, g, k - 1), Complete)
    requires var start, gap := StartOf(pos, g, k - 1), GapOf(g, k - 1);
      Next(tape, start) == Assembled(ws[k - 1], gap, 0, start + gap + 3)
    ensures ReadWords(tape, pos, k) == Scan(ws[..k], GapsOf(g, k), StartOf(pos, g, k), Complete)
  {
    var i := k - 1;
    var gap := GapOf(g, i);
    ReadWordsStep(tape, pos, k, ws[i], gap, StartOf(pos, g, i) + gap + 3);
    assert ws[..k] == ws[..i] + [ws[i]];
    assert GapsOf(g, k) == GapsOf(g, i) + [gap];
  }

  lemma {:induction false} ReadEncodedPrefix(tape: seq<Frame>, pos: nat, g: nat, ws: seq<nat>, k: nat)
    requires WordsAt(tape, pos, g, ws) && k <= |ws|
    ensures ReadWords(tape, pos, k) == Scan(ws[..k], GapsOf(g, k), StartOf(pos, g, k), Complete)
  {
    if k > 0 {
      ReadEncodedPrefix(tape, pos, g, ws, k - 1);
      ReadEncodedStep(tape, pos, g, ws, k);
    }
  }

  /**
   * Decoding what the encoder wrote: `g` blank frames followed by the
   * frames of ws are read back as the words ws, with gap `g` before the
   * first and none between the others.
   */
  lemma ReadEncoded(tape: seq<Frame>, pos: nat, g: nat, ws: seq<nat>)
    requires AllWords(ws) && |ws| > 0
    requires pos + g + 3 * |ws| <= |tape|
    requires tape[pos..pos + g + 3 * |ws|] == Blanks(g) + EncodeWords(ws)
    ensures ReadWords(tape, pos, |ws|) == Scan(ws, GapsOf(g, |ws|), pos + g + 3 * |ws|, Complete)
  {
    EncodedWordsAt(tape, pos, g, ws);
    ReadEncodedPrefix(tape, pos, g, ws, |ws|);
    assert ws[..|ws|] == ws;
  }

  /** What read_next_word makes of one rpb result. */
  datatype Step = Got(word: nat, gap: nat) | Ended(gap: nat) | InnerFrames(frames: nat)

  function StepOf(r: Assembly): Step
  {
    match r
    case Assembled(w, g, i, _) => if i > 0 then InnerFrames(i) else Got(w, g)
    case EndOfTape(g, i) => if i > 0 then InnerFrames(i) else Ended(g)
  }

  /** The input stream: the frames of the tape and the current read position. */
  class Reader {
    const tape: seq<Frame>
    var pos: nat

    predicate Valid()
      reads this
    {
      pos <= |tape|
    }

    constructor (tape: seq<Frame>)
      ensures this.tape == tape && pos == 0 && Valid()
    {
      this.tape := tape;
      pos := 0;
    }

    /**
     * read_next_word: one rpb; inner blank frames are reported before EOF,
     * and the word counter advances only when a word was read.
     */
    method ReadNextWord(count: nat) returns (s: Step, count': nat)
      requires Valid()
      modifies this
      ensures Valid()
      ensures s == StepOf(Next(tape, old(pos)))
      ensures pos == After(tape, Next(tape, old(pos)))
      ensures count' == if s.Got? then count + 1 else count
    {
      var r := Rpb(tape, pos);
      pos := After(tape, r);
      s := StepOf(r);
      count' := if s.Got? then count + 1 else count;
    }

    /**
     * peek_gap: save the position, run rpb, restore the position. Inner
     * blank frames are not reported; only whether a word follows, and the
     * gap before it (or before EOF).
     */
    method PeekGap() returns (more: bool, gap: nat)
      requires Valid()
      modifies this
      ensures pos == old(pos)
      ensures more == Next(tape, pos).Assembled? && gap == Next(tape, pos).gap
    {
      var saved := pos;
      var r := Rpb(tape, pos);
      pos := After(tape, r);
      more, gap := r.Assembled?, r.gap;
      pos := saved;
    }
  }

  /** The output stream of the tweak pass. */
  class Writer {
    var out: seq<Frame>

    constructor ()
      ensures out == []
    {
      out := [];
    }

    /** ppb */
    method PutWord(w: nat)
      modifies this
      ensures out == old(out) + Ppb(w)
    {
      out := out + [FrameOf(w, 0)];
      out := out + [FrameOf(w, 1)];
      out := out + [FrameOf(w, 2)];
    }

    /** write_gap */
    method WriteGap(length: int)
      modifies this
      ensures out == old(out) + Blanks(length)
    {
      var i := 0;
      while i < length
        invariant 0 <= i <= (if length < 0 then 0 else length)
        invariant out == old(out) + Blanks(i)
      {
        out := out + [0];
        assert Blanks(i + 1) == Blanks(i) + [0];
        i := i + 1;
      }
    }
  }

  /** Concatenation is associative (stated once, for the proofs that regroup what a writer appended). */
  lemma ConcatAssoc<T>(a: seq<T>, b: seq<T>, c: seq<T>)
    ensures (a + b) + c == a + (b + c)
  {
  }
}
