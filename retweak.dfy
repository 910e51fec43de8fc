/**
 * Reading back what the tweak pass wrote. Every block it punches is a good
 * block, and the whole output of a good run is a good tape that the tweak
 * pass, run again with the same tempo and voice gap, gives back frame for
 * frame: the leader, the inner gaps and the trailer keep their lengths, the
 * voice gaps already have the chosen length, and the tempo words already
 * carry the chosen tempo.
 */
module Retweak {
  import opened Word18
  import opened Outcomes
  import opened Tape
  import opened Blocks
  import opened Tweak

  /** The frames of t from position p on begin with f. */
  predicate At(t: seq<Frame>, p: nat, f: seq<Frame>)
  {
    p + |f| <= |t| && t[p..p + |f|] == f
  }

  lemma AtSplit(t: seq<Frame>, p: nat, a: seq<Frame>, b: seq<Frame>)
    requires At(t, p, a + b)
    ensures At(t, p, a) && At(t, p + |a|, b)
  {
    assert t[p..p + |a|] == (a + b)[..|a|];
    assert t[p + |a|..p + |a| + |b|] == (a + b)[|a|..];
  }

  /* ---------------------------------------------------------------------
   * Blocks.
   * --------------------------------------------------------------------- */

  /** A Notes block that copy_notes wrote: a count, words a second rewrite leaves alone, their checksum. */
  lemma NotesOut(tape: seq<Frame>, pos: nat, tempo: nat) returns (c: nat, ws: seq<nat>)
    requires pos <= |tape| && CopyNotesSpec(tape, pos, tempo).Ok?
    ensures IsWord(c) && |ws| == c && AllWords(ws) && Rewrite(ws, tempo) == ws
    ensures CopyNotesSpec(tape, pos, tempo).value.out == BlockFrames(c, ws)
  {
    NotesCopyWords(tape, pos, tempo);
    c := ReadWords(tape, pos, 1).words[0];
    var s := ReadWords(tape, pos, c + 2);
    assert IsWord(c) by { assert s.words[0] == c; }
    ws := Rewrite(Content(s, c), tempo);
    RewriteIdempotent(Content(s, c), tempo);
  }

  /** The words of a block: the count, the content and the checksum of the content. */
  lemma BlockWords(c: nat, ws: seq<nat>)
    requires IsWord(c) && AllWords(ws)
    ensures AllWords([c] + ws + [Checksum(ws)])
  {
    var all := [c] + ws + [Checksum(ws)];
    forall i | 0 <= i < |all| ensures all[i] < WordLimit {
      if 0 < i <= |ws| {
        assert all[i] == ws[i - 1];
      }
    }
  }

  /** copy_notes once its count word c was read: the verdict on the whole block scan. */
  lemma NotesHead(t: seq<Frame>, p: nat, c: nat, tempo: nat, k: nat)
    requires p <= |t| && ReadWords(t, p, 1).stop.Complete? && ReadWords(t, p, 1).words[0] == c && k == c + 2
    ensures BlockScanOf(ReadWords(t, p, k), c)
    ensures CopyNotesSpec(t, p, tempo) == NotesCopyVerdict(ReadWords(t, p, k), c, tempo)
  {
    BlockScanFrom(t, p);
  }

  /** copy_bars once its count word c was read after a gap: the verdict on the whole block scan. */
  lemma BarsHead(t: seq<Frame>, p: nat, c: nat, k: nat)
    requires p <= |t| && ReadWords(t, p, 1).stop.Complete? && ReadWords(t, p, 1).words[0] == c && k == c + 2
    requires ReadWords(t, p, 1).gaps[0] > 0
    ensures BlockScanOf(ReadWords(t, p, k), c) && ReadWords(t, p, k).next <= |t|
    ensures CopyBarsSpec(t, p) == BarsCopyVerdict(t, ReadWords(t, p, k), c)
  {
    BlockScanFrom(t, p);
  }

  /** The first word of a scan that read the words ws after g blank frames. */
  lemma FirstOfScan(t: seq<Frame>, p: nat, g: nat, ws: seq<nat>, k: nat)
    requires p <= |t| && 1 <= k && |ws| >= 1
    requires ReadWords(t, p, k).stop.Complete? && ReadWords(t, p, k).words == ws
    requires ReadWords(t, p, k).gaps == GapsOf(g, |ws|)
    ensures ReadWords(t, p, 1).stop.Complete? && ReadWords(t, p, 1).words[0] == ws[0]
    ensures ReadWords(t, p, 1).gaps[0] == g
  {
    ReadWordsPrefix(t, p, 1, k);
    assert ws[..1] == [ws[0]];
    assert GapsOf(g, |ws|)[0] == g;
  }

  /**
   * copy_notes, run on g blank frames and a block that copy_notes wrote,
   * reads it and writes it again unchanged.
   */
  lemma NotesRereadAt(t: seq<Frame>, p: nat, g: nat, c: nat, ws: seq<nat>, tempo: nat, e: nat)
    requires IsWord(c) && |ws| == c && AllWords(ws) && Rewrite(ws, tempo) == ws
    requires At(t, p, Blanks(g) + BlockFrames(c, ws)) && e == p + g + 3 * (c + 2)
    ensures CopyNotesSpec(t, p, tempo) == Ok(Copied(BlockFrames(c, ws), e))
  {
    var all := [c] + ws + [Checksum(ws)];
    var k := c + 2;
    BlockWords(c, ws);
    ReadEncodedAt(t, p, g, all, k, e);
    var s := ReadWords(t, p, k);
    assert Content(s, c) == ws by {
      assert all[1..c + 1] == ws;
    }
    NotesHead(t, p, c, tempo, k);
  }

  /** The words ws punched after g blank frames: reading them back gives them, the first after the gap g. */
  lemma ReadEncodedAt(t: seq<Frame>, p: nat, g: nat, ws: seq<nat>, k: nat, e: nat)
    requires AllWords(ws) && |ws| > 0 && k == |ws| && e == p + g + 3 * |ws|
    requires At(t, p, Blanks(g) + EncodeWords(ws))
    ensures ReadWords(t, p, k) == Scan(ws, GapsOf(g, k), e, Complete)
    ensures ReadWords(t, p, 1).stop.Complete? && ReadWords(t, p, 1).words[0] == ws[0]
    ensures ReadWords(t, p, 1).gaps[0] == g
  {
    ReadEncoded(t, p, g, ws);
    FirstOfScan(t, p, g, ws, k);
  }

  /**
   * A Bars block that copy_bars wrote, after a word was peeked at its
   * start: the words read, after a gap, either the whole block with a good
   * checksum or a block cut short by the end of the tape.
   */
  lemma BarsOut(tape: seq<Frame>, q: nat) returns (ws: seq<nat>)
    requires q <= |tape| && CopyBarsSpec(tape, q).Ok? && Next(tape, q).Assembled?
    ensures AllWords(ws) && 1 <= |ws| <= ws[0] + 2 && Next(tape, q).gap > 0 && ws[0] == Next(tape, q).word
    ensures CopyBarsSpec(tape, q).value.out == EncodeWords(ws)
    ensures |ws| == ws[0] + 2 ==> ws[ws[0] + 1] == Checksum(ws[1..ws[0] + 1])
    ensures |ws| < ws[0] + 2 ==> CopyBarsSpec(tape, q).value.next == |tape| && !CopyBarsSpec(tape, q).value.more
  {
    var head := ReadWords(tape, q, 1);
    assert head.stop.Complete? && head.gaps[0] == Next(tape, q).gap && head.words[0] == Next(tape, q).word;
    BlockScanFrom(tape, q);
    var c := head.words[0];
    var s := ReadWords(tape, q, c + 2);
    ws := s.words;
    if |ws| == c + 2 {
      assert Content(s, c) == ws[1..c + 1];
    }
  }

  /** copy_bars, run on g > 0 blank frames and a whole block with a good checksum, writes it again. */
  lemma BarsRereadComplete(t: seq<Frame>, p: nat, g: nat, ws: seq<nat>, e: nat)
    requires g > 0 && AllWords(ws) && |ws| >= 1 && |ws| == ws[0] + 2 && ws[ws[0] + 1] == Checksum(ws[1..ws[0] + 1])
    requires At(t, p, Blanks(g) + EncodeWords(ws)) && e == p + g + 3 * |ws|
    ensures e <= |t|
    ensures CopyBarsSpec(t, p) == Ok(BarsCopied(EncodeWords(ws), e, Next(t, e).Assembled?))
  {
    var c := ws[0];
    var k := c + 2;
    ReadEncodedAt(t, p, g, ws, k, e);
    var s := ReadWords(t, p, k);
    assert Content(s, c) == ws[1..c + 1];
    BarsHead(t, p, c, k);
  }

  /** A scan that read the words ws up to the end of the tape: the next read_next_word meets EOF. */
  lemma ScanToEnd(t: seq<Frame>, p: nat, g: nat, ws: seq<nat>, j: nat, k: nat)
    requires p <= |t| && j == |ws| && k == j + 1
    requires ReadWords(t, p, j) == Scan(ws, GapsOf(g, j), |t|, Complete)
    ensures ReadWords(t, p, k) == Scan(ws, GapsOf(g, j), |t|, StoppedAtEof(0))
  {
    AtEnd(t);
  }

  /** copy_bars, run on g > 0 blank frames and a block cut short by the end of the tape, writes it again. */
  lemma BarsRereadEnd(t: seq<Frame>, p: nat, g: nat, ws: seq<nat>)
    requires g > 0 && AllWords(ws) && 1 <= |ws| < ws[0] + 2
    requires At(t, p, Blanks(g) + EncodeWords(ws)) && p + g + 3 * |ws| == |t|
    ensures CopyBarsSpec(t, p) == Ok(BarsCopied(EncodeWords(ws), |t|, false))
  {
    var c := ws[0];
    var j, k, m := |ws|, |ws| + 1, c + 2;
    ReadEncodedAt(t, p, g, ws, j, |t|);
    ScanToEnd(t, p, g, ws, j, k);
    ReadWordsPrefix(t, p, k, m);
    BarsHead(t, p, c, m);
  }

  /* ---------------------------------------------------------------------
   * Gaps.
   * --------------------------------------------------------------------- */

  /** g blank frames and then a word: rpb reports that word after a gap of g. */
  lemma WordAfterGap(t: seq<Frame>, q: nat, g: nat, w: nat, f: seq<Frame>)
    requires IsWord(w) && |f| >= 3 && f[..3] == Ppb(w) && At(t, q, Blanks(g) + f)
    ensures Next(t, q) == Assembled(w, g, 0, q + g + 3)
  {
    AtSplit(t, q, Blanks(g), f);
    assert t[q + g..q + g + 3] == f[..3] by {
      assert t[q + g..q + g + |f|][..3] == t[q + g..q + g + 3];
    }
    NextOfEncoded(t, q, g, w);
  }

  /** t blank frames up to the end of the tape: the last peek finds no word and copies them. */
  lemma TrailerReread(t: seq<Frame>, e: nat, n: nat)
    requires At(t, e, Blanks(n)) && e + n == |t|
    ensures Next(t, e) == EndOfTape(n, 0)
    ensures Trailer(t, e) == Ok(Blanks(n))
  {
    forall j | e <= j < |t| ensures !IsBinary(t[j]) {
      assert t[j] == Blanks(n)[j - e];
    }
    NextOfBlanks(t, e);
  }

  /** The frames of a voice start with the count word of its Notes block. */
  lemma VoicesHead(tape: seq<Frame>, pos: nat, tempo: nat, gap: int, v: nat) returns (w: nat)
    requires pos <= |tape| && 1 <= v <= 4 && TweakVoices(tape, pos, tempo, gap, v).Ok?
    ensures IsWord(w) && |TweakVoices(tape, pos, tempo, gap, v).value| >= 3
    ensures TweakVoices(tape, pos, tempo, gap, v).value[..3] == Ppb(w)
  {
    TweakVoiceFault(tape, pos, tempo, gap, v);
    var c, ws := NotesOut(tape, pos, tempo);
    var all := [c] + ws + [Checksum(ws)];
    EncodedGroup(all, 0);
    var n := CopyNotesSpec(tape, pos, tempo).value;
    var b := CopyBarsSpec(tape, n.next).value;
    TweakVoiceStep(tape, pos, tempo, gap, v, n, b);
    w := c;
  }

  /* ---------------------------------------------------------------------
   * Voices.
   * --------------------------------------------------------------------- */

  /** The frames of one voice, then r: where its Notes block, its Bars block and r start. */
  lemma AtVoice(t: seq<Frame>, p: nat, g: nat, a: seq<Frame>, ig: nat, b: seq<Frame>, r: seq<Frame>, p1: nat, e: nat)
    requires At(t, p, Blanks(g) + (a + Blanks(ig) + b + r))
    requires p1 == p + g + |a| && e == p1 + ig + |b|
    ensures At(t, p, Blanks(g) + a)
    ensures At(t, p1, Blanks(ig) + b + r)
    ensures At(t, e, r)
  {
    assert Blanks(g) + (a + Blanks(ig) + b + r) == (Blanks(g) + a) + (Blanks(ig) + b + r);
    AtSplit(t, p, Blanks(g) + a, Blanks(ig) + b + r);
    AtSplit(t, p1, Blanks(ig) + b, r);
  }

  /** The Notes block of a voice of a good run, read back after g blank frames. */
  lemma VoiceNotesReread(tape: seq<Frame>, pos: nat, tempo: nat, n: Copied, t: seq<Frame>, p: nat, g: nat, p1: nat)
    requires pos <= |tape| && CopyNotesSpec(tape, pos, tempo) == Ok(n)
    requires At(t, p, Blanks(g) + n.out) && p1 == p + g + |n.out|
    ensures CopyNotesSpec(t, p, tempo) == Ok(Copied(n.out, p1))
  {
    var c, ws := NotesOut(tape, pos, tempo);
    NotesRereadAt(t, p, g, c, ws, tempo, p1);
  }

  /**
   * The Bars block of a voice of a good run, read back after the inner gap
   * ig and followed by the frames r (none when the block ended the tape).
   */
  lemma VoiceBarsReread(tape: seq<Frame>, q: nat, b: BarsCopied, t: seq<Frame>, p1: nat, ig: nat, r: seq<Frame>, e: nat)
    requires q <= |tape| && Next(tape, q).Assembled? && Next(tape, q).gap == ig
    requires CopyBarsSpec(tape, q) == Ok(b) && (b.next == |tape| ==> r == [])
    requires At(t, p1, Blanks(ig) + b.out + r) && e == p1 + ig + |b.out| && e + |r| == |t|
    ensures Next(t, p1) == Assembled(Next(tape, q).word, ig, 0, p1 + ig + 3)
    ensures CopyBarsSpec(t, p1) == Ok(BarsCopied(b.out, e, Next(t, e).Assembled?))
  {
    var bws := BarsOut(tape, q);
    AtSplit(t, p1, Blanks(ig) + b.out, r);
    assert Next(tape, q).word == bws[0] by {
      BlockScanFrom(tape, q);
    }
    assert Next(t, p1) == Assembled(bws[0], ig, 0, p1 + ig + 3) by {
      EncodedGroup(bws, 0);
      WordAfterGap(t, p1, ig, bws[0], b.out);
    }
    if |bws| == bws[0] + 2 {
      BarsRereadComplete(t, p1, ig, bws, e);
    } else {
      BarsRereadEnd(t, p1, ig, bws);
      assert Next(t, |t|) == EndOfTape(0, 0);
    }
  }

  /** There is no word at the end of the tape. */
  lemma AtEnd(t: seq<Frame>)
    ensures Next(t, |t|) == EndOfTape(0, 0)
  {
  }

  /**
   * One voice of a good run, read back after g blank frames and followed
   * by the frames r: its Notes block, its inner gap and its Bars block.
   */
  lemma VoiceReread(tape: seq<Frame>, pos: nat, tempo: nat, n: Copied, b: BarsCopied, ig: nat,
                    t: seq<Frame>, p: nat, g: nat, r: seq<Frame>, p1: nat, e: nat)
    requires pos <= |tape| && CopyNotesSpec(tape, pos, tempo) == Ok(n)
    requires Next(tape, n.next).Assembled? && Next(tape, n.next).gap == ig
    requires CopyBarsSpec(tape, n.next) == Ok(b) && (b.next == |tape| ==> r == [])
    requires At(t, p, Blanks(g) + (n.out + Blanks(ig) + b.out + r))
    requires p1 == p + g + |n.out| && e == p1 + ig + |b.out| && e + |r| == |t|
    ensures CopyNotesSpec(t, p, tempo) == Ok(Copied(n.out, p1))
    ensures Next(t, p1).Assembled? && Next(t, p1).gap == ig
    ensures CopyBarsSpec(t, p1) == Ok(BarsCopied(b.out, e, Next(t, e).Assembled?))
    ensures At(t, e, r)
  {
    AtVoice(t, p, g, n.out, ig, b.out, r, p1, e);
    VoiceNotesReread(tape, pos, tempo, n, t, p, g, p1);
    VoiceBarsReread(tape, n.next, b, t, p1, ig, r, e);
  }

  /** A voice whose blocks copy_notes and copy_bars read: the step of the voice loop. */
  lemma VoiceStepBack(t: seq<Frame>, p: nat, tempo: nat, gap: int, v: nat,
                      nout: seq<Frame>, p1: nat, ig: nat, bout: seq<Frame>, e: nat, more: bool)
    requires p <= |t| && 1 <= v <= 4
    requires CopyNotesSpec(t, p, tempo) == Ok(Copied(nout, p1))
    requires Next(t, p1).Assembled? && Next(t, p1).gap == ig
    requires CopyBarsSpec(t, p1) == Ok(BarsCopied(bout, e, more))
    ensures e <= |t|
    ensures !more ==> TweakVoices(t, p, tempo, gap, v) == Then(nout + Blanks(ig) + bout, Trailer(t, e))
    ensures more ==> (TweakVoices(t, p, tempo, gap, v) ==
      Then(nout + Blanks(ig) + bout + Blanks(gap), TweakVoices(t, e, tempo, gap, v + 1)))
  {
    TweakVoiceStep(t, p, tempo, gap, v, Copied(nout, p1), BarsCopied(bout, e, more));
  }

  /** The last voice of a good run, read back: the voice loop copies it and the trailer. */
  lemma LastVoiceReread(tape: seq<Frame>, pos: nat, tempo: nat, gap: int, v: nat, n: Copied, b: BarsCopied,
                        t: seq<Frame>, p: nat, g: nat)
    requires pos <= |tape| && 1 <= v <= 4
    requires CopyNotesSpec(tape, pos, tempo) == Ok(n) && Next(tape, n.next).Assembled?
    requires CopyBarsSpec(tape, n.next) == Ok(b) && !b.more
    requires At(t, p, Blanks(g) + (n.out + Blanks(Next(tape, n.next).gap) + b.out + Blanks(Next(tape, b.next).gap)))
    requires p + g + |n.out| + Next(tape, n.next).gap + |b.out| + Next(tape, b.next).gap == |t|
    ensures TweakVoices(t, p, tempo, gap, v) ==
      Ok(n.out + Blanks(Next(tape, n.next).gap) + b.out + Blanks(Next(tape, b.next).gap))
  {
    var ig := Next(tape, n.next).gap;
    var r := Blanks(Next(tape, b.next).gap);
    var p1 := p + g + |n.out|;
    var e := p1 + ig + |b.out|;
    assert b.next == |tape| ==> r == [] by {
      AtEnd(tape);
    }
    VoiceReread(tape, pos, tempo, n, b, ig, t, p, g, r, p1, e);
    assert Trailer(t, e) == Ok(r) && !Next(t, e).Assembled? by {
      TrailerReread(t, e, |r|);
    }
    VoiceStepBack(t, p, tempo, gap, v, n.out, p1, ig, b.out, e, false);
  }

  /**
   * The voice loop, run on the frames a good run wrote for voices v on
   * (after g blank frames), writes those frames again.
   */
  lemma {:induction false} VoicesReread(tape: seq<Frame>, pos: nat, tempo: nat, gap: int, v: nat,
                                        t: seq<Frame>, p: nat, g: nat)
    requires pos <= |tape| && 1 <= v <= 4 && TweakVoices(tape, pos, tempo, gap, v).Ok?
    requires At(t, p, Blanks(g) + TweakVoices(tape, pos, tempo, gap, v).value)
    requires p + g + |TweakVoices(tape, pos, tempo, gap, v).value| == |t|
    ensures TweakVoices(t, p, tempo, gap, v) == TweakVoices(tape, pos, tempo, gap, v)
    decreases 5 - v, 1
  {
    assert CopyNotesSpec(tape, pos, tempo).Ok? by {
      TweakVoiceFault(tape, pos, tempo, gap, v);
    }
    var n := CopyNotesSpec(tape, pos, tempo).value;
    assert Next(tape, n.next).Assembled? && CopyBarsSpec(tape, n.next).Ok? by {
      TweakVoiceFault(tape, pos, tempo, gap, v);
    }
    var b := CopyBarsSpec(tape, n.next).value;
    if !b.more {
      assert TweakVoices(tape, pos, tempo, gap, v).value ==
        n.out + Blanks(Next(tape, n.next).gap) + b.out + Blanks(Next(tape, b.next).gap) by {
        TweakVoiceStep(tape, pos, tempo, gap, v, n, b);
      }
      LastVoiceReread(tape, pos, tempo, gap, v, n, b, t, p, g);
    } else {
      MoreVoicesReread(tape, pos, tempo, gap, v, n, b, t, p, g);
    }
  }

  /** The next voice of a good run, after the voice gap: the peek of main finds its count word. */
  lemma NextVoiceAt(tape: seq<Frame>, q: nat, tempo: nat, gap: int, v: nat, t: seq<Frame>, e: nat)
    requires q <= |tape| && 1 <= v <= 4 && TweakVoices(tape, q, tempo, gap, v).Ok?
    requires At(t, e, Blanks(gap) + TweakVoices(tape, q, tempo, gap, v).value)
    ensures Next(t, e).Assembled?
  {
    var w := VoicesHead(tape, q, tempo, gap, v);
    assert Blanks(|Blanks(gap)|) == Blanks(gap);
    WordAfterGap(t, e, |Blanks(gap)|, w, TweakVoices(tape, q, tempo, gap, v).value);
  }

  /** A voice of a good run that another voice follows: the voice, the voice gap, the voices after it. */
  lemma MoreVoicesOut(tape: seq<Frame>, pos: nat, tempo: nat, gap: int, v: nat, n: Copied, b: BarsCopied)
      returns (o': seq<Frame>)
    requires pos <= |tape| && 1 <= v <= 4
    requires CopyNotesSpec(tape, pos, tempo) == Ok(n) && Next(tape, n.next).Assembled?
    requires CopyBarsSpec(tape, n.next) == Ok(b) && b.more
    requires TweakVoices(tape, pos, tempo, gap, v).Ok?
    ensures v < 4 && b.next < |tape| && TweakVoices(tape, b.next, tempo, gap, v + 1) == Ok(o')
    ensures TweakVoices(tape, pos, tempo, gap, v).value ==
      n.out + Blanks(Next(tape, n.next).gap) + b.out + (Blanks(gap) + o')
  {
    TweakVoiceStep(tape, pos, tempo, gap, v, n, b);
    o' := TweakVoices(tape, b.next, tempo, gap, v + 1).value;
    ConcatAssoc(n.out + Blanks(Next(tape, n.next).gap) + b.out, Blanks(gap), o');
    AtEnd(tape);
  }

  /** The voices after the voice gap, read back. */
  lemma {:induction false} RestReread(tape: seq<Frame>, q: nat, tempo: nat, gap: int, v: nat,
                                      o': seq<Frame>, t: seq<Frame>, e: nat)
    requires q <= |tape| && 1 <= v <= 4 && TweakVoices(tape, q, tempo, gap, v) == Ok(o')
    requires At(t, e, Blanks(gap) + o') && e + |Blanks(gap)| + |o'| == |t|
    ensures Next(t, e).Assembled? && TweakVoices(t, e, tempo, gap, v) == Ok(o')
    decreases 5 - v, 2
  {
    NextVoiceAt(tape, q, tempo, gap, v, t, e);
    assert Blanks(|Blanks(gap)|) == Blanks(gap);
    VoicesReread(tape, q, tempo, gap, v, t, e, |Blanks(gap)|);
  }

  /** A voice of a good run that another voice follows, read back, and the voices after it. */
  lemma {:induction false} MoreVoicesReread(tape: seq<Frame>, pos: nat, tempo: nat, gap: int, v: nat,
                                            n: Copied, b: BarsCopied, t: seq<Frame>, p: nat, g: nat)
    requires pos <= |tape| && 1 <= v <= 4
    requires CopyNotesSpec(tape, pos, tempo) == Ok(n) && Next(tape, n.next).Assembled?
    requires CopyBarsSpec(tape, n.next) == Ok(b) && b.more
    requires TweakVoices(tape, pos, tempo, gap, v).Ok?
    requires At(t, p, Blanks(g) + TweakVoices(tape, pos, tempo, gap, v).value)
    requires p + g + |TweakVoices(tape, pos, tempo, gap, v).value| == |t|
    ensures TweakVoices(t, p, tempo, gap, v) == TweakVoices(tape, pos, tempo, gap, v)
    decreases 5 - v, 0
  {
    var ig := Next(tape, n.next).gap;
    var p1 := p + g + |n.out|;
    var e := p1 + ig + |b.out|;
    var o' := MoreVoicesOut(tape, pos, tempo, gap, v, n, b);
    var r := Blanks(gap) + o';
    VoiceReread(tape, pos, tempo, n, b, ig, t, p, g, r, p1, e);
    RestReread(tape, b.next, tempo, gap, v + 1, o', t, e);
    VoiceStepBack(t, p, tempo, gap, v, n.out, p1, ig, b.out, e, true);
    assert n.out + Blanks(ig) + b.out + Blanks(gap) + o' == n.out + Blanks(ig) + b.out + r;
  }

  /**
   * The output of a good run is a good tape, and the tweak pass run on it
   * again with the same tempo and voice gap writes it back unchanged.
   */
  lemma TweakIdempotent(tape: seq<Frame>, tempo: nat, gap: int, out: seq<Frame>)
    requires TweakSpec(tape, tempo, gap) == Ok(out)
    ensures TweakSpec(out, tempo, gap) == Ok(out)
  {
    var lead := Next(tape, 0);
    var o := TweakVoices(tape, 0, tempo, gap, 1).value;
    assert out == Blanks(lead.gap) + o;
    assert At(out, 0, Blanks(lead.gap) + o) by {
      assert out[0..|out|] == out;
    }
    var w := VoicesHead(tape, 0, tempo, gap, 1);
    WordAfterGap(out, 0, lead.gap, w, o);
    VoicesReread(tape, 0, tempo, gap, 1, out, 0, lead.gap);
  }
}
