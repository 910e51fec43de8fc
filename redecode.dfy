/**
 * Decoding what the tweak pass wrote. The model's decoder, which never
 * divides, lists the output of a good tweak run just as it lists the input:
 * the same voices, the same Bars content, the same word count and the same
 * faults, except that every tempo word of a Notes block (and so of every
 * bar rendered from it) carries the requested tempo. Without a tempo the
 * two listings are equal. The last section bounds where decodehcint, which
 * does divide, stops on a zero divisor in the output and not in the input.
 */
module Redecode {
  import opened Word18
  import opened Outcomes
  import opened Tape
  import opened NoteCodec
  import opened Blocks
  import opened Decoder
  import opened Tweak
  import Retweak

  /* ---------------------------------------------------------------------
   * The listing with its note words rewritten.
   * --------------------------------------------------------------------- */

  function RewriteLine(l: BarLine, tempo: nat): BarLine
  {
    match l
    case EndMark => EndMark
    case Bar(k, notes) => Bar(k, Rewrite(notes, tempo))
  }

  function RewriteLines(ls: seq<BarLine>, tempo: nat): seq<BarLine>
  {
    seq(|ls|, i requires 0 <= i < |ls| => RewriteLine(ls[i], tempo))
  }

  /** A voice of the listing as it reads once its Notes content is rewritten; the Bars content is not. */
  function RewriteVoice(v: DecodedVoice, tempo: nat): DecodedVoice
  {
    DecodedVoice(Rewrite(v.notes, tempo), v.bars, RewriteLines(v.lines, tempo))
  }

  function RewriteVoices(vs: seq<DecodedVoice>, tempo: nat): seq<DecodedVoice>
  {
    seq(|vs|, i requires 0 <= i < |vs| => RewriteVoice(vs[i], tempo))
  }

  /** A decoder run with its voices rewritten; a fault stays as it is. */
  function RewriteDecoded(r: Result<Decoded>, tempo: nat): Result<Decoded>
  {
    if r.Err? then r else Ok(Decoded(RewriteVoices(r.value.voices, tempo), r.value.wordCount))
  }

  /** read_notes with its content rewritten, ending at next. */
  function RewrittenNotes(r: Result<NotesRead>, tempo: nat, next: nat): Result<NotesRead>
  {
    if r.Err? then r else Ok(NotesRead(r.value.count, Rewrite(r.value.content, tempo), next, r.value.wordCount))
  }

  /** read_bars with its rendering rewritten, ending at next with the peek more. */
  function RewrittenBars(r: Result<BarsRead>, tempo: nat, next: nat, more: bool): Result<BarsRead>
  {
    if r.Err? then r else Ok(BarsRead(r.value.content, RewriteLines(r.value.lines, tempo), r.value.wordCount, next, more))
  }

  /* ---------------------------------------------------------------------
   * Words: the decoder's checks cannot tell a rewritten word from the old.
   * --------------------------------------------------------------------- */

  /** A tempo word stays a tempo word, so the articulation check of read_notes passes it either way. */
  lemma NoteFaultKept(i: nat, w: nat, tempo: nat)
    ensures NoteFault(i, RewriteWord(w, tempo)) == NoteFault(i, w)
  {
    if IsTempo(w) && tempo != NoTempo {
      assert Classify(TempoWord(tempo)).TempoMark? && Classify(w).TempoMark?;
    }
  }

  lemma NoteFaultsKept(content: seq<nat>, tempo: nat)
    ensures NoteFaults(Rewrite(content, tempo)) == NoteFaults(content)
  {
    forall i | 0 <= i < |content|
      ensures NoteFaults(Rewrite(content, tempo))[i] == NoteFaults(content)[i]
    {
      NoteFaultKept(i, content[i], tempo);
    }
  }

  /** 0600000 is no tempo word, and no tempo word becomes 0600000. */
  lemma SeparatorKept(w: nat, tempo: nat)
    ensures RewriteWord(w, tempo) == Separator <==> w == Separator
  {
    assert Classify(Separator).Slash?;
    if IsTempo(w) && tempo != NoTempo {
      assert IsTempo(TempoWord(tempo));
    }
  }

  /** The rendering of a bar stops at the same index in the rewritten buffer. */
  lemma {:induction false} MeasureEndKept(buffer: seq<nat>, k: nat, limit: nat, tempo: nat)
    ensures MeasureEnd(Rewrite(buffer, tempo), k, limit) == MeasureEnd(buffer, k, limit)
    decreases |buffer| - k
  {
    if k < |buffer| {
      SeparatorKept(buffer[k], tempo);
      if buffer[k] != Separator && k < limit {
        MeasureEndKept(buffer, k + 1, limit, tempo);
      }
    }
  }

  lemma BarFaultsKept(content: seq<nat>, c: nat, buffer: seq<nat>, limit: nat, tempo: nat)
    ensures BarFaults(content, c, Rewrite(buffer, tempo), limit) == BarFaults(content, c, buffer, limit)
  {
    forall i | 0 <= i < |content|
      ensures BarFaults(content, c, Rewrite(buffer, tempo), limit)[i] == BarFaults(content, c, buffer, limit)[i]
    {
      MeasureEndKept(buffer, content[i], limit, tempo);
    }
  }

  lemma SliceRewritten(buffer: seq<nat>, a: nat, b: nat, tempo: nat)
    requires a <= b <= |buffer|
    ensures Rewrite(buffer, tempo)[a..b] == Rewrite(buffer[a..b], tempo)
  {
  }

  /** Each bar renders the rewritten words of the same measure. */
  lemma BarLinesRewritten(content: seq<nat>, buffer: seq<nat>, limit: nat, tempo: nat)
    ensures BarLines(content, Rewrite(buffer, tempo), limit) == RewriteLines(BarLines(content, buffer, limit), tempo)
  {
    forall i | 0 <= i < |content|
      ensures BarLineOf(i, content[i], Rewrite(buffer, tempo), limit) == RewriteLine(BarLineOf(i, content[i], buffer, limit), tempo)
    {
      var w := content[i];
      MeasureEndKept(buffer, w, limit, tempo);
      if w != Separator && MeasureEnd(buffer, w, limit).Some? {
        SliceRewritten(buffer, w, MeasureEnd(buffer, w, limit).value, tempo);
      }
    }
  }

  lemma OverwriteRewritten(buffer: seq<nat>, content: seq<nat>, tempo: nat)
    requires |content| <= |buffer|
    ensures Overwrite(Rewrite(buffer, tempo), Rewrite(content, tempo)) == Rewrite(Overwrite(buffer, content), tempo)
  {
  }

  lemma ZerosKept(tempo: nat)
    ensures Rewrite(Zeros(), tempo) == Zeros()
  {
  }

  lemma PrependRewritten(voice: DecodedVoice, r: Result<Decoded>, tempo: nat)
    ensures Prepend(RewriteVoice(voice, tempo), RewriteDecoded(r, tempo)) == RewriteDecoded(Prepend(voice, r), tempo)
  {
    if r.Ok? {
      assert [RewriteVoice(voice, tempo)] + RewriteVoices(r.value.voices, tempo) == RewriteVoices([voice] + r.value.voices, tempo);
    }
  }

  lemma RewriteLinesNoTempo(ls: seq<BarLine>)
    ensures RewriteLines(ls, NoTempo) == ls
  {
    forall j | 0 <= j < |ls| ensures RewriteLine(ls[j], NoTempo) == ls[j] {
      if ls[j].Bar? {
        RewriteNoTempo(ls[j].notes);
      }
    }
  }

  /** Without a tempo, rewriting leaves a listing as it is. */
  lemma RewriteDecodedNoTempo(r: Result<Decoded>)
    ensures RewriteDecoded(r, NoTempo) == r
  {
    if r.Ok? {
      var vs := r.value.voices;
      forall i | 0 <= i < |vs| ensures RewriteVoice(vs[i], NoTempo) == vs[i] {
        RewriteNoTempo(vs[i].notes);
        RewriteLinesNoTempo(vs[i].lines);
      }
      assert RewriteVoices(vs, NoTempo) == vs;
    }
  }

  /* ---------------------------------------------------------------------
   * Blocks: read_notes and read_bars on the blocks copy_notes and
   * copy_bars wrote.
   * --------------------------------------------------------------------- */

  /** read_notes over the scan of a good block and over the scan of its rewritten copy. */
  lemma NotesVerdictRewritten(s: Scan, s': Scan, c: nat, wc: nat, tempo: nat)
    requires BlockScanOf(s, c) && BlockScanOf(s', c) && s.stop.Complete? && s'.stop.Complete?
    requires s.words[c + 1] == Checksum(Content(s, c))
    requires Content(s', c) == Rewrite(Content(s, c), tempo) && s'.words[c + 1] == Checksum(Content(s', c))
    ensures NotesVerdict(s', c, wc) == RewrittenNotes(NotesVerdict(s, c, wc), tempo, s'.next)
  {
    NoteFaultsKept(Content(s, c), tempo);
  }

  /**
   * read_notes on the block copy_notes wrote (after g blank frames): the
   * verdict on the input block, with the content rewritten; a fault is the
   * same fault.
   */
  lemma NotesRedecode(tape: seq<Frame>, pos: nat, tempo: nat, n: Copied,
                      out: seq<Frame>, p: nat, g: nat, p1: nat, wc: nat)
    requires pos <= |tape| && CopyNotesSpec(tape, pos, tempo) == Ok(n)
    requires Retweak.At(out, p, Blanks(g) + n.out) && p1 == p + g + |n.out|
    ensures ReadNotesSpec(out, p, wc) == RewrittenNotes(ReadNotesSpec(tape, pos, wc), tempo, p1)
    ensures ReadNotesSpec(tape, pos, wc).Ok? ==> ReadNotesSpec(tape, pos, wc).value.next == n.next
  {
    NotesCopyWords(tape, pos, tempo);
    var c := ReadWords(tape, pos, 1).words[0];
    var s := ReadWords(tape, pos, c + 2);
    var ws := Rewrite(Content(s, c), tempo);
    assert IsWord(c) by { assert s.words[0] == c; }
    NotesHead(tape, pos, wc, c);
    var all := [c] + ws + [Checksum(ws)];
    Retweak.BlockWords(c, ws);
    Retweak.ReadEncodedAt(out, p, g, all, c + 2, p1);
    var s' := ReadWords(out, p, c + 2);
    assert Content(s', c) == ws by {
      assert all[1..c + 1] == ws;
    }
    assert s'.words[c + 1] == Checksum(ws);
    NotesHead(out, p, wc, c);
    NotesVerdictRewritten(s, s', c, wc, tempo);
  }

  /**
   * read_bars over the scan of a block copy_bars accepted and over the scan
   * of its copy at e in out: the same words, stopped the same way.
   */
  lemma BarsVerdictRewritten(tape: seq<Frame>, s: Scan, out: seq<Frame>, s': Scan, c: nat, wc: nat,
                             buffer: seq<nat>, limit: nat, tempo: nat, e: nat)
    requires BlockScanOf(s, c) && s.next <= |tape| && BlockScanOf(s', c) && s'.next <= |out|
    requires s'.words == s.words && !s.stop.StoppedAtInner? && !s'.stop.StoppedAtInner?
    requires s.stop.Complete? <==> s'.stop.Complete?
    requires s.stop.Complete? ==> s.words[c + 1] == Checksum(Content(s, c)) && s'.next == e
    requires !s.stop.Complete? ==> e == |out|
    ensures BarsVerdict(out, s', c, wc, Rewrite(buffer, tempo), limit) ==
      RewrittenBars(BarsVerdict(tape, s, c, wc, buffer, limit), tempo, e, Next(out, e).Assembled?)
    ensures BarsVerdict(tape, s, c, wc, buffer, limit).Ok? ==>
      BarsVerdict(tape, s, c, wc, buffer, limit).value.next == (if s.stop.Complete? then s.next else |tape|) &&
      BarsVerdict(tape, s, c, wc, buffer, limit).value.more == (s.stop.Complete? && Next(tape, s.next).Assembled?)
  {
    var content := Content(s, c);
    assert Content(s', c) == content;
    BarFaultsKept(content, c, buffer, limit, tempo);
    BarLinesRewritten(content, buffer, limit, tempo);
    Retweak.AtEnd(out);
  }

  /** A Bars block copy_bars accepted: its count word c, the scan of its words and both verdicts on it. */
  lemma BarsInputScan(tape: seq<Frame>, q: nat, b: BarsCopied, wc: nat, buffer: seq<nat>, limit: nat) returns (c: nat)
    requires q <= |tape| && Next(tape, q).Assembled? && CopyBarsSpec(tape, q) == Ok(b)
    ensures var s := ReadWords(tape, q, c + 2);
      && BlockScanOf(s, c) && s.next <= |tape| && !s.stop.StoppedAtInner?
      && b.out == EncodeWords(s.words)
      && (s.stop.Complete? ==> s.words[c + 1] == Checksum(Content(s, c)) && b.next == s.next
                               && b.more == Next(tape, s.next).Assembled?)
      && (!s.stop.Complete? ==> b.next == |tape| && !b.more)
      && ReadBarsSpec(tape, q, wc, buffer, limit) == BarsVerdict(tape, s, c, wc, buffer, limit)
  {
    var head := ReadWords(tape, q, 1);
    assert head.stop.Complete? && head.gaps[0] > 0;
    c := head.words[0];
    BarsHead(tape, q, wc, buffer, limit, c);
    Retweak.BarsHead(tape, q, c, c + 2);
  }

  /** The words of a Bars block copy_bars wrote at p1, read back: whole, or cut short by the end of out. */
  lemma BarsRescan(out: seq<Frame>, p1: nat, ig: nat, ws: seq<nat>, c: nat, e: nat)
    requires AllWords(ws) && 1 <= |ws| <= c + 2 && ws[0] == c
    requires Retweak.At(out, p1, Blanks(ig) + EncodeWords(ws)) && e == p1 + ig + 3 * |ws|
    requires |ws| < c + 2 ==> e == |out|
    ensures ReadWords(out, p1, 1).stop.Complete? && ReadWords(out, p1, 1).words[0] == c
    ensures ReadWords(out, p1, 1).gaps[0] == ig
    ensures var s' := ReadWords(out, p1, c + 2);
      && s'.words == ws && !s'.stop.StoppedAtInner?
      && (|ws| == c + 2 ==> s'.next == e)
  {
    if |ws| == c + 2 {
      Retweak.ReadEncodedAt(out, p1, ig, ws, c + 2, e);
    } else {
      Retweak.ReadEncodedAt(out, p1, ig, ws, |ws|, e);
      Retweak.ScanToEnd(out, p1, ig, ws, |ws|, |ws| + 1);
      ReadWordsPrefix(out, p1, |ws| + 1, c + 2);
    }
  }

  /**
   * read_bars on the block copy_bars wrote (after the inner gap ig, and
   * followed by the frames r): the verdict on the input block with its
   * rendering rewritten, once the notes buffer is; it ends where the
   * written block ends, and a fault is the same fault.
   */
  lemma BarsRedecode(tape: seq<Frame>, q: nat, b: BarsCopied, out: seq<Frame>, p1: nat, ig: nat,
                     r: seq<Frame>, e: nat, wc: nat, buffer: seq<nat>, limit: nat, tempo: nat)
    requires q <= |tape| && Next(tape, q).Assembled? && Next(tape, q).gap == ig
    requires CopyBarsSpec(tape, q) == Ok(b) && (b.next == |tape| ==> r == [])
    requires Retweak.At(out, p1, Blanks(ig) + b.out + r) && e == p1 + ig + |b.out| && e + |r| == |out|
    ensures ReadBarsSpec(out, p1, wc, Rewrite(buffer, tempo), limit) ==
      RewrittenBars(ReadBarsSpec(tape, q, wc, buffer, limit), tempo, e, Next(out, e).Assembled?)
    ensures ReadBarsSpec(tape, q, wc, buffer, limit).Ok? ==>
      ReadBarsSpec(tape, q, wc, buffer, limit).value.next == b.next &&
      ReadBarsSpec(tape, q, wc, buffer, limit).value.more == b.more
  {
    var c := BarsInputScan(tape, q, b, wc, buffer, limit);
    var s := ReadWords(tape, q, c + 2);
    Retweak.AtSplit(out, p1, Blanks(ig) + b.out, r);
    BarsRescan(out, p1, ig, s.words, c, e);
    var s' := ReadWords(out, p1, c + 2);
    BarsHead(out, p1, wc, Rewrite(buffer, tempo), limit, c);
    BarsVerdictRewritten(tape, s, out, s', c, wc, buffer, limit, tempo, e);
  }

  /* ---------------------------------------------------------------------
   * The voice loop.
   * --------------------------------------------------------------------- */

  /** The two blocks of a voice that the tweak pass copied. */
  lemma VoiceBlocks(tape: seq<Frame>, pos: nat, tempo: nat, gap: int, v: nat) returns (n: Copied, b: BarsCopied)
    requires pos <= |tape| && 1 <= v <= 4 && TweakVoices(tape, pos, tempo, gap, v).Ok?
    ensures CopyNotesSpec(tape, pos, tempo) == Ok(n) && Next(tape, n.next).Assembled?
    ensures CopyBarsSpec(tape, n.next) == Ok(b)
  {
    TweakVoiceFault(tape, pos, tempo, gap, v);
    n := CopyNotesSpec(tape, pos, tempo).value;
    b := CopyBarsSpec(tape, n.next).value;
  }

  /** The last voice of a good run: its blocks and then the trailer r. */
  lemma LastVoiceOut(tape: seq<Frame>, pos: nat, tempo: nat, gap: int, v: nat, n: Copied, b: BarsCopied)
      returns (r: seq<Frame>)
    requires pos <= |tape| && 1 <= v <= 4 && TweakVoices(tape, pos, tempo, gap, v).Ok?
    requires CopyNotesSpec(tape, pos, tempo) == Ok(n) && Next(tape, n.next).Assembled?
    requires CopyBarsSpec(tape, n.next) == Ok(b) && !b.more
    ensures r == Blanks(|r|) && (b.next == |tape| ==> r == [])
    ensures TweakVoices(tape, pos, tempo, gap, v).value == n.out + Blanks(Next(tape, n.next).gap) + b.out + r
  {
    TweakVoiceStep(tape, pos, tempo, gap, v, n, b);
    r := Blanks(Next(tape, b.next).gap);
    Retweak.AtEnd(tape);
  }

  /**
   * The frames a good tweak run wrote for voices v on, after g blank
   * frames: the Notes block, the inner gap, the Bars block and the frames
   * r after it (the trailer, or the voice gap and the voices o' after it);
   * the peek after the Bars block finds another voice exactly when the
   * tweak pass copied one.
   */
  lemma VoiceLayout(tape: seq<Frame>, pos: nat, tempo: nat, gap: int, v: nat, out: seq<Frame>, p: nat, g: nat)
      returns (n: Copied, b: BarsCopied, r: seq<Frame>, o': seq<Frame>, ig: nat, p1: nat, e: nat)
    requires pos <= |tape| && 1 <= v <= 4
    requires TweakVoices(tape, pos, tempo, gap, v).Ok?
    requires Retweak.At(out, p, Blanks(g) + TweakVoices(tape, pos, tempo, gap, v).value)
    requires p + g + |TweakVoices(tape, pos, tempo, gap, v).value| == |out|
    ensures CopyNotesSpec(tape, pos, tempo) == Ok(n) && Next(tape, n.next).Assembled?
    ensures CopyBarsSpec(tape, n.next) == Ok(b) && (b.next == |tape| ==> r == [])
    ensures ig == Next(tape, n.next).gap && p1 == p + g + |n.out| && e == p1 + ig + |b.out|
    ensures Retweak.At(out, p, Blanks(g) + n.out) && Retweak.At(out, p1, Blanks(ig) + b.out + r)
    ensures e + |r| == |out| && Next(out, e).Assembled? == b.more
    ensures b.more ==> v < 4 && b.next < |tape| && TweakVoices(tape, b.next, tempo, gap, v + 1) == Ok(o')
    ensures b.more ==> Retweak.At(out, e, Blanks(|Blanks(gap)|) + o') && e + |Blanks(gap)| + |o'| == |out|
  {
    n, b := VoiceBlocks(tape, pos, tempo, gap, v);
    ig := Next(tape, n.next).gap;
    p1 := p + g + |n.out|;
    e := p1 + ig + |b.out|;
    o' := [];
    if !b.more {
      r := LastVoiceOut(tape, pos, tempo, gap, v, n, b);
    } else {
      o' := Retweak.MoreVoicesOut(tape, pos, tempo, gap, v, n, b);
      r := Blanks(gap) + o';
    }
    Retweak.AtVoice(out, p, g, n.out, ig, b.out, r, p1, e);
    if b.more {
      Retweak.RestReread(tape, b.next, tempo, gap, v + 1, o', out, e);
      assert Blanks(|Blanks(gap)|) == Blanks(gap);
    } else {
      Retweak.TrailerReread(out, e, |r|);
    }
  }

  /** A fault in the Notes block of a voice, met on both tapes, ends both runs with it. */
  lemma NotesFaultStep(tape: seq<Frame>, pos: nat, wc: nat, buffer: seq<nat>, v: nat, out: seq<Frame>, p: nat, tempo: nat)
    requires pos <= |tape| && p <= |out| && |buffer| == BufferSize && 1 <= v <= 4
    requires ReadNotesSpec(tape, pos, wc).Err? && ReadNotesSpec(out, p, wc) == ReadNotesSpec(tape, pos, wc)
    ensures DecodeVoices(out, p, wc, Rewrite(buffer, tempo), v) == RewriteDecoded(DecodeVoices(tape, pos, wc, buffer, v), tempo)
  {
  }

  /** A fault in the Bars block of a voice, met on both tapes, ends both runs with it. */
  lemma BarsFaultStep(tape: seq<Frame>, pos: nat, wc: nat, buffer: seq<nat>, v: nat, nr: NotesRead,
                      out: seq<Frame>, p: nat, tempo: nat, p1: nat)
    requires pos <= |tape| && p <= |out| && |buffer| == BufferSize && 1 <= v <= 4
    requires ReadNotesSpec(tape, pos, wc) == Ok(nr)
    requires ReadNotesSpec(out, p, wc) == Ok(NotesRead(nr.count, Rewrite(nr.content, tempo), p1, nr.wordCount))
    requires ReadBarsSpec(tape, nr.next, nr.wordCount, Overwrite(buffer, nr.content), NotesCountOf(nr.count)).Err?
    requires p1 <= |out| && ReadBarsSpec(out, p1, nr.wordCount, Rewrite(Overwrite(buffer, nr.content), tempo), NotesCountOf(nr.count))
      == ReadBarsSpec(tape, nr.next, nr.wordCount, Overwrite(buffer, nr.content), NotesCountOf(nr.count))
    ensures DecodeVoices(out, p, wc, Rewrite(buffer, tempo), v) == RewriteDecoded(DecodeVoices(tape, pos, wc, buffer, v), tempo)
  {
    OverwriteRewritten(buffer, nr.content, tempo);
  }

  /**
   * One voice of main's loop on both tapes: the Notes and Bars blocks of the
   * output read as those of the input with their notes rewritten, and the
   * voices after them (if any) likewise.
   */
  lemma VoiceRedecodeStep(tape: seq<Frame>, pos: nat, wc: nat, buffer: seq<nat>, v: nat, nr: NotesRead, br: BarsRead,
                          out: seq<Frame>, p: nat, tempo: nat, p1: nat, e: nat)
    requires pos <= |tape| && p <= |out| && |buffer| == BufferSize && 1 <= v <= 4
    requires ReadNotesSpec(tape, pos, wc) == Ok(nr)
    requires ReadBarsSpec(tape, nr.next, nr.wordCount, Overwrite(buffer, nr.content), NotesCountOf(nr.count)) == Ok(br)
    requires ReadNotesSpec(out, p, wc) == Ok(NotesRead(nr.count, Rewrite(nr.content, tempo), p1, nr.wordCount))
    requires p1 <= |out| && ReadBarsSpec(out, p1, nr.wordCount, Rewrite(Overwrite(buffer, nr.content), tempo), NotesCountOf(nr.count))
      == Ok(BarsRead(br.content, RewriteLines(br.lines, tempo), br.wordCount, e, br.more))
    requires br.more ==>
      && br.next <= |tape| && e <= |out|
      && DecodeVoices(out, e, br.wordCount, Rewrite(Overwrite(buffer, nr.content), tempo), v + 1) ==
         RewriteDecoded(DecodeVoices(tape, br.next, br.wordCount, Overwrite(buffer, nr.content), v + 1), tempo)
    ensures DecodeVoices(out, p, wc, Rewrite(buffer, tempo), v) == RewriteDecoded(DecodeVoices(tape, pos, wc, buffer, v), tempo)
  {
    var nOut := NotesRead(nr.count, Rewrite(nr.content, tempo), p1, nr.wordCount);
    var bOut := BarsRead(br.content, RewriteLines(br.lines, tempo), br.wordCount, e, br.more);
    OverwriteRewritten(buffer, nr.content, tempo);
    VoiceStep(tape, pos, wc, buffer, v, nr, br);
    VoiceStep(out, p, wc, Rewrite(buffer, tempo), v, nOut, bOut);
    var voice := DecodedVoice(nr.content, br.content, br.lines);
    if !br.more {
      assert RewriteVoices([voice], tempo) == [RewriteVoice(voice, tempo)];
    } else {
      PrependRewritten(voice, DecodeVoices(tape, br.next, br.wordCount, Overwrite(buffer, nr.content), v + 1), tempo);
    }
  }

  /**
   * One voice of main's loop on both tapes once the Notes block of the
   * output read as the input's, rewritten: the Bars block decides the rest,
   * given that the voices after it (if any) read alike too.
   */
  lemma VoiceBarsPart(tape: seq<Frame>, pos: nat, tempo: nat, wc: nat, buffer: seq<nat>, v: nat, nr: NotesRead,
                      n: Copied, b: BarsCopied, out: seq<Frame>, p: nat, p1: nat, ig: nat, r: seq<Frame>, e: nat)
    requires pos <= |tape| && p <= |out| && |buffer| == BufferSize && 1 <= v <= 4
    requires n.next <= |tape| && Next(tape, n.next).Assembled? && Next(tape, n.next).gap == ig
    requires CopyBarsSpec(tape, n.next) == Ok(b) && (b.next == |tape| ==> r == [])
    requires Retweak.At(out, p1, Blanks(ig) + b.out + r) && e == p1 + ig + |b.out| && e + |r| == |out|
    requires Next(out, e).Assembled? == b.more
    requires ReadNotesSpec(tape, pos, wc) == Ok(nr) && nr.next == n.next
    requires ReadNotesSpec(out, p, wc) == Ok(NotesRead(nr.count, Rewrite(nr.content, tempo), p1, nr.wordCount))
    requires var buffer' := Overwrite(buffer, nr.content);
      var rb := ReadBarsSpec(tape, n.next, nr.wordCount, buffer', NotesCountOf(nr.count));
      rb.Ok? && b.more ==>
        && b.next <= |tape| && e <= |out|
        && DecodeVoices(out, e, rb.value.wordCount, Rewrite(buffer', tempo), v + 1) ==
           RewriteDecoded(DecodeVoices(tape, b.next, rb.value.wordCount, buffer', v + 1), tempo)
    ensures DecodeVoices(out, p, wc, Rewrite(buffer, tempo), v) == RewriteDecoded(DecodeVoices(tape, pos, wc, buffer, v), tempo)
  {
    var buffer' := Overwrite(buffer, nr.content);
    var limit := NotesCountOf(nr.count);
    OverwriteRewritten(buffer, nr.content, tempo);
    BarsRedecode(tape, n.next, b, out, p1, ig, r, e, nr.wordCount, buffer', limit, tempo);
    var rb := ReadBarsSpec(tape, n.next, nr.wordCount, buffer', limit);
    if rb.Err? {
      BarsFaultStep(tape, pos, wc, buffer, v, nr, out, p, tempo, p1);
    } else {
      VoiceRedecodeStep(tape, pos, wc, buffer, v, nr, rb.value, out, p, tempo, p1, e);
    }
  }

  /**
   * main's voice loop from voice v on, run on the frames a good tweak run
   * wrote for voices v on (after g blank frames) with the notes buffer
   * rewritten, lists the rewritten voices of the input.
   */
  lemma {:induction false} VoicesRedecode(tape: seq<Frame>, pos: nat, tempo: nat, gap: int, v: nat,
                                          out: seq<Frame>, p: nat, g: nat, wc: nat, buffer: seq<nat>)
    requires pos <= |tape| && 1 <= v <= 4 && |buffer| == BufferSize
    requires TweakVoices(tape, pos, tempo, gap, v).Ok?
    requires Retweak.At(out, p, Blanks(g) + TweakVoices(tape, pos, tempo, gap, v).value)
    requires p + g + |TweakVoices(tape, pos, tempo, gap, v).value| == |out|
    ensures DecodeVoices(out, p, wc, Rewrite(buffer, tempo), v) ==
      RewriteDecoded(DecodeVoices(tape, pos, wc, buffer, v), tempo)
    decreases 5 - v
  {
    var n, b, r, o', ig, p1, e := VoiceLayout(tape, pos, tempo, gap, v, out, p, g);
    NotesRedecode(tape, pos, tempo, n, out, p, g, p1, wc);
    var rn := ReadNotesSpec(tape, pos, wc);
    if rn.Err? {
      NotesFaultStep(tape, pos, wc, buffer, v, out, p, tempo);
      return;
    }
    var nr := rn.value;
    var buffer' := Overwrite(buffer, nr.content);
    var rb := ReadBarsSpec(tape, n.next, nr.wordCount, buffer', NotesCountOf(nr.count));
    if rb.Ok? && b.more {
      VoicesRedecode(tape, b.next, tempo, gap, v + 1, out, e, |Blanks(gap)|, rb.value.wordCount, buffer');
    }
    VoiceBarsPart(tape, pos, tempo, wc, buffer, v, nr, n, b, out, p, p1, ig, r, e);
  }

  /* ---------------------------------------------------------------------
   * The whole run.
   * --------------------------------------------------------------------- */

  /**
   * The decoder run on the output of a good tweak run lists the input's
   * voices with their Notes content rewritten for the tempo, and reports
   * the input's fault when the input has one.
   */
  lemma TweakThenDecode(tape: seq<Frame>, tempo: nat, gap: int, out: seq<Frame>)
    requires TweakSpec(tape, tempo, gap) == Ok(out)
    ensures DecodeSpec(out) == RewriteDecoded(DecodeSpec(tape), tempo)
  {
    var lead := Next(tape, 0);
    var o := TweakVoices(tape, 0, tempo, gap, 1).value;
    assert out == Blanks(lead.gap) + o;
    assert Retweak.At(out, 0, Blanks(lead.gap) + o) by {
      assert out[0..|out|] == out;
    }
    VoicesRedecode(tape, 0, tempo, gap, 1, out, 0, lead.gap, 0, Zeros());
    ZerosKept(tempo);
  }

  /** Without a tempo, the decoder lists the output of a good tweak run exactly as it lists the input. */
  lemma TweakKeepsDecode(tape: seq<Frame>, gap: int, out: seq<Frame>)
    requires TweakSpec(tape, NoTempo, gap) == Ok(out)
    ensures DecodeSpec(out) == DecodeSpec(tape)
  {
    TweakThenDecode(tape, NoTempo, gap, out);
    RewriteDecodedNoTempo(DecodeSpec(tape));
  }

  /**
   * A listing rewritten for a tempo: as many voices with the same Bars
   * content and word count; every tempo mark in the rewritten Notes content
   * is the requested tempo, and every other Notes word is the original.
   */
  lemma RewriteDecodedTempo(r: Result<Decoded>, tempo: nat)
    requires tempo != NoTempo
    ensures RewriteDecoded(r, tempo).Ok? <==> r.Ok?
    ensures r.Err? ==> RewriteDecoded(r, tempo) == r
    ensures r.Ok? ==>
      var vo, vi := RewriteDecoded(r, tempo).value.voices, r.value.voices;
      && RewriteDecoded(r, tempo).value.wordCount == r.value.wordCount
      && |vo| == |vi|
      && forall i :: 0 <= i < |vo| ==>
        && vo[i].bars == vi[i].bars && |vo[i].notes| == |vi[i].notes|
        && forall j :: 0 <= j < |vo[i].notes| ==>
          && (Classify(vo[i].notes[j]).TempoMark? ==> Classify(vo[i].notes[j]) == TempoMark(tempo % TempoRange))
          && (!IsTempo(vi[i].notes[j]) ==> vo[i].notes[j] == vi[i].notes[j])
  {
    if r.Ok? {
      var vo, vi := RewriteDecoded(r, tempo).value.voices, r.value.voices;
      forall i, j | 0 <= i < |vo| && 0 <= j < |vo[i].notes|
        ensures Classify(vo[i].notes[j]).TempoMark? ==> Classify(vo[i].notes[j]) == TempoMark(tempo % TempoRange)
      {
        assert vo[i].notes[j] == RewriteWord(vi[i].notes[j], tempo);
        TempoWordRoundTrip(tempo);
      }
    }
  }

  /**
   * With a tempo, the output of a good tweak run decodes exactly when the
   * input does, to as many voices with the same Bars content; every tempo
   * mark the decoder reads in a Notes block of the output is the requested
   * tempo, and every other Notes word is the input's.
   */
  lemma TweakTempoDecoded(tape: seq<Frame>, tempo: nat, gap: int, out: seq<Frame>)
    requires TweakSpec(tape, tempo, gap) == Ok(out) && tempo != NoTempo
    ensures DecodeSpec(out).Ok? <==> DecodeSpec(tape).Ok?
    ensures DecodeSpec(out).Err? ==> DecodeSpec(out) == DecodeSpec(tape)
    ensures DecodeSpec(out).Ok? ==>
      var vo, vi := DecodeSpec(out).value.voices, DecodeSpec(tape).value.voices;
      && DecodeSpec(out).value.wordCount == DecodeSpec(tape).value.wordCount
      && |vo| == |vi|
      && forall i :: 0 <= i < |vo| ==>
        && vo[i].bars == vi[i].bars && |vo[i].notes| == |vi[i].notes|
        && forall j :: 0 <= j < |vo[i].notes| ==>
          && (Classify(vo[i].notes[j]).TempoMark? ==> Classify(vo[i].notes[j]) == TempoMark(tempo % TempoRange))
          && (!IsTempo(vi[i].notes[j]) ==> vo[i].notes[j] == vi[i].notes[j])
  {
    TweakThenDecode(tape, tempo, gap, out);
    RewriteDecodedTempo(DecodeSpec(tape), tempo);
  }

  /* ---------------------------------------------------------------------
   * Division by zero. The model's decoder keeps the raw words and never
   * divides; decodehcint divides for every Notes word it lists and for
   * every word it renders in a bar, and stops the program on a zero divisor.
   * --------------------------------------------------------------------- */

  predicate LineDivides(l: BarLine)
  {
    l.Bar? && exists k :: 0 <= k < |l.notes| && RenderingDivides(l.notes[k])
  }

  predicate VoiceDivides(v: DecodedVoice)
  {
    || (exists j :: 0 <= j < |v.notes| && ListingDivides(v.notes[j]))
    || (exists j :: 0 <= j < |v.lines| && LineDivides(v.lines[j]))
  }

  /** decodehcint divides by zero somewhere while printing the listing d. */
  predicate DividesByZero(d: Decoded)
  {
    exists i :: 0 <= i < |d.voices| && VoiceDivides(d.voices[i])
  }

  /**
   * A rewritten word divides by zero where the original does, except that
   * a replaced tempo word now divides exactly when the new tempo's low 15
   * bits (read_notes) or low 7 bits (bar rendering) are 0.
   */
  lemma RewriteWordDivides(w: nat, tempo: nat)
    ensures ListingDivides(RewriteWord(w, tempo)) <==>
      if IsTempo(w) && tempo != NoTempo then tempo % TempoRange == 0 else ListingDivides(w)
    ensures RenderingDivides(RewriteWord(w, tempo)) <==>
      if IsTempo(w) && tempo != NoTempo then tempo % 128 == 0 else RenderingDivides(w)
  {
    LowBitsOfTempo(tempo);
    LowBitsOfTempo(TempoWord(tempo));
  }

  /** Rewriting a listing adds a division by zero only for a tempo whose low 7 bits are 0. */
  lemma RewriteDivides(d: Decoded, tempo: nat)
    ensures DividesByZero(RewriteDecoded(Ok(d), tempo).value) ==>
      DividesByZero(d) || (tempo != NoTempo && tempo % 128 == 0)
  {
    var vs := RewriteDecoded(Ok(d), tempo).value.voices;
    if DividesByZero(RewriteDecoded(Ok(d), tempo).value) && !(tempo != NoTempo && tempo % 128 == 0) {
      LowBitsOfTempo(tempo);
      var i :| 0 <= i < |vs| && VoiceDivides(vs[i]);
      var v := d.voices[i];
      assert vs[i] == RewriteVoice(v, tempo);
      if j :| 0 <= j < |vs[i].notes| && ListingDivides(vs[i].notes[j]) {
        RewriteWordDivides(v.notes[j], tempo);
        assert ListingDivides(v.notes[j]);
        assert VoiceDivides(v);
      } else {
        var j :| 0 <= j < |vs[i].lines| && LineDivides(vs[i].lines[j]);
        var l := v.lines[j];
        assert vs[i].lines[j] == RewriteLine(l, tempo);
        var k :| 0 <= k < |Rewrite(l.notes, tempo)| && RenderingDivides(Rewrite(l.notes, tempo)[k]);
        RewriteWordDivides(l.notes[k], tempo);
        assert LineDivides(l);
        assert VoiceDivides(v);
      }
    }
  }

  /**
   * The decoder fault and the listing are carried over only where
   * decodehcint does not divide by zero: when the output of a good tweak
   * run decodes, decodehcint divides by zero on it only where it already
   * does on the input, or when the tempo's low 7 bits are 0.
   */
  lemma TweakDivisions(tape: seq<Frame>, tempo: nat, gap: int, out: seq<Frame>)
    requires TweakSpec(tape, tempo, gap) == Ok(out)
    ensures DecodeSpec(out).Ok? <==> DecodeSpec(tape).Ok?
    ensures DecodeSpec(out).Ok? && DividesByZero(DecodeSpec(out).value) ==>
      DividesByZero(DecodeSpec(tape).value) || (tempo != NoTempo && tempo % 128 == 0)
  {
    TweakThenDecode(tape, tempo, gap, out);
    if DecodeSpec(tape).Ok? {
      RewriteDivides(DecodeSpec(tape).value, tempo);
    }
  }

  /**
   * Both exceptions occur: tempo 32768 turns the tempo word 0700144 into
   * 0700000, on which read_notes divides by zero; tempo 128 turns it into
   * 0700200, which read_notes lists but a bar cannot render. The other way
   * round, a listing that divides at 0700000 no longer does once the tempo
   * is 100.
   */
  lemma TempoDivisionExamples()
    ensures RewriteWord(TempoTag + 100, 32768) == TempoTag
    ensures !ListingDivides(TempoTag + 100) && !RenderingDivides(TempoTag + 100) && ListingDivides(TempoTag)
    ensures RewriteWord(TempoTag + 100, 128) == TempoTag + 128
    ensures !ListingDivides(TempoTag + 128) && RenderingDivides(TempoTag + 128)
    ensures RewriteWord(TempoTag, 100) == TempoTag + 100
    ensures var d := Decoded([DecodedVoice([TempoTag + 100], [0, Separator], [Bar(1, [TempoTag + 100]), EndMark])], 7);
      && !DividesByZero(d) && DividesByZero(RewriteDecoded(Ok(d), 128).value)
    ensures var d := Decoded([DecodedVoice([TempoTag], [], [])], 4);
      && DividesByZero(d) && !DividesByZero(RewriteDecoded(Ok(d), 100).value)
  {
    var v := DecodedVoice([TempoTag + 100], [0, Separator], [Bar(1, [TempoTag + 100]), EndMark]);
    var v' := RewriteVoice(v, 128);
    assert v'.lines[0] == Bar(1, [TempoTag + 128]);
    assert RenderingDivides(v'.lines[0].notes[0]);
    assert LineDivides(v'.lines[0]);
    assert VoiceDivides(v');
    assert RewriteDecoded(Ok(Decoded([v], 7)), 128).value.voices[0] == v';
    assert !LineDivides(v.lines[0]) && !LineDivides(v.lines[1]);
    var u := DecodedVoice([TempoTag], [], []);
    assert ListingDivides(u.notes[0]);
    assert VoiceDivides(u) && Decoded([u], 4).voices[0] == u;
    assert RewriteDecoded(Ok(Decoded([u], 4)), 100).value.voices == [RewriteVoice(u, 100)];
    assert RewriteVoice(u, 100).notes == [TempoTag + 100];
  }
}
