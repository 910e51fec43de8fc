/**
 * The tweak pass: copy a Harmony Compiler intermediate tape word by word,
 * rewriting the tempo words of each Notes block when a tempo is given and
 * replacing the blank run between one voice and the next by a gap of a
 * chosen length. Each block is specified declaratively over the block scan
 * (what successive read_next_word calls see) and implemented by methods
 * that read through a Reader and punch through a Writer.
 */
module Tweak {
  import opened Word18
  import opened Outcomes
  import opened Tape
  import opened NoteCodec
  import opened Blocks

  /** (uint32_t)-1: no tempo override. */
  const NoTempo: nat := 0xFFFF_FFFF

  /** DEFAULT_GAP_LENGTH: the gap between voices when none is given. */
  const DefaultGap: int := 18

  /* ---------------------------------------------------------------------
   * The tempo override.
   * --------------------------------------------------------------------- */

  /** copy_notes on one content word: a tempo word becomes the requested tempo, unless there is none. */
  function RewriteWord(w: nat, tempo: nat): (r: nat)
    ensures IsWord(w) ==> IsWord(r)
  {
    if IsTempo(w) && tempo != NoTempo then TempoWord(tempo) else w
  }

  /** The content of a Notes block as copy_notes writes it. */
  function Rewrite(content: seq<nat>, tempo: nat): (out: seq<nat>)
    ensures |out| == |content|
    ensures AllWords(content) ==> AllWords(out)
  {
    seq(|content|, i requires 0 <= i < |content| => RewriteWord(content[i], tempo))
  }

  /**
   * Only tempo marks change, and each becomes a mark of the requested tempo
   * (its low 15 bits); the separator, rests and notes are written as read.
   */
  lemma RewriteMeaning(w: nat, tempo: nat)
    requires IsWord(w)
    ensures Classify(RewriteWord(w, tempo)) ==
      if Classify(w).TempoMark? && tempo != NoTempo then TempoMark(tempo % TempoRange) else Classify(w)
  {
    ClassifyExact(w);
    if IsTempo(w) && tempo != NoTempo {
      TempoWordRoundTrip(tempo);
    }
  }

  /** Without a tempo the content is copied word for word. */
  lemma RewriteNoTempo(content: seq<nat>)
    ensures Rewrite(content, NoTempo) == content
  {
  }

  /** Rewriting twice with the same tempo is rewriting once. */
  lemma RewriteIdempotent(content: seq<nat>, tempo: nat)
    requires AllWords(content)
    ensures Rewrite(Rewrite(content, tempo), tempo) == Rewrite(content, tempo)
  {
    var once := Rewrite(content, tempo);
    forall i | 0 <= i < |content| ensures RewriteWord(once[i], tempo) == once[i] {
      if IsTempo(content[i]) && tempo != NoTempo {
        assert IsTempo(TempoWord(tempo));
      }
    }
  }

  lemma RewriteSnoc(content: seq<nat>, w: nat, tempo: nat)
    ensures Rewrite(content + [w], tempo) == Rewrite(content, tempo) + [RewriteWord(w, tempo)]
  {
  }

  /* ---------------------------------------------------------------------
   * The blocks copy_notes and copy_bars write.
   * --------------------------------------------------------------------- */

  /** A whole block as ppb punches it: the count c, the words, and their checksum. */
  function BlockFrames(c: nat, ws: seq<nat>): (f: seq<Frame>)
    requires AllWords(ws)
    ensures |f| == 3 * (|ws| + 2)
  {
    EncodeWords([c] + ws + [Checksum(ws)])
  }

  /** What copy_notes leaves behind: the frames it wrote and the read position. */
  datatype Copied = Copied(out: seq<Frame>, next: nat)

  /**
   * The faults a copy can end with. tweak checks only the framing and the
   * checksums: it never looks inside a note or bar word, so no articulation,
   * index or buffer fault can arise.
   */
  predicate CopyFault(f: Fault)
  {
    f.InnerBlank? || f.ChecksumMismatch? || f.EofInNotes? || f.NoGapBeforeBars? || f.MissingBars? || f.TrailingData?
  }

  /**
   * copy_notes over the block scan s with count c: a stop inside the block
   * is fatal, and so is a checksum word that does not match the content
   * read; the block written carries the rewritten content and the checksum
   * of what was written.
   */
  function NotesCopyVerdict(s: Scan, c: nat, tempo: nat): (r: Result<Copied>)
    requires BlockScanOf(s, c)
    ensures r.Err? ==> CopyFault(r.fault)
    ensures r.Ok? <==> s.stop.Complete? && s.words[c + 1] == Checksum(Content(s, c))
    ensures r.Ok? ==> r.value.next == s.next && |r.value.out| == 3 * (c + 2)
  {
    var content := Content(s, c);
    if s.stop.StoppedAtInner? then Err(InnerBlank(s.stop.frames, |s.words|))
    else if s.stop.StoppedAtEof? then Err(EofInNotes)
    else if s.words[c + 1] != Checksum(content) then Err(ChecksumMismatch(s.words[c + 1], Checksum(content)))
    else Ok(Copied(BlockFrames(c, Rewrite(content, tempo)), s.next))
  }

  /** copy_notes from tape position pos: the count word, then the rest of the block. */
  function CopyNotesSpec(tape: seq<Frame>, pos: nat, tempo: nat): (r: Result<Copied>)
    requires pos <= |tape|
    ensures r.Err? ==> CopyFault(r.fault)
    ensures r.Ok? ==> pos < r.value.next <= |tape|
  {
    var head := ReadWords(tape, pos, 1);
    if head.stop.StoppedAtInner? then Err(InnerBlank(head.stop.frames, 0))
    else if head.stop.StoppedAtEof? then Err(EofInNotes)
    else
      BlockScanFrom(tape, pos);
      NotesCopyVerdict(ReadWords(tape, pos, head.words[0] + 2), head.words[0], tempo)
  }

  /** What copy_bars leaves behind; `more` is false when no word follows (the voice loop stops). */
  datatype BarsCopied = BarsCopied(out: seq<Frame>, next: nat, more: bool)

  /**
   * copy_bars over the block scan s with count c: every word read is
   * written as it is; EOF inside the block ends the tape normally; the
   * checksum must match; then a peek for another voice.
   */
  function BarsCopyVerdict(tape: seq<Frame>, s: Scan, c: nat): (r: Result<BarsCopied>)
    requires BlockScanOf(s, c) && s.next <= |tape|
    ensures r.Err? ==> CopyFault(r.fault)
    ensures r.Ok? <==> s.stop.StoppedAtEof? || (s.stop.Complete? && s.words[c + 1] == Checksum(Content(s, c)))
    ensures r.Ok? ==> s.next <= r.value.next <= |tape| && r.value.out == EncodeWords(s.words)
    ensures r.Ok? && r.value.more ==> r.value.next == s.next && Next(tape, s.next).Assembled?
  {
    var content := Content(s, c);
    if s.stop.StoppedAtInner? then Err(InnerBlank(s.stop.frames, |s.words|))
    else if s.stop.StoppedAtEof? then Ok(BarsCopied(EncodeWords(s.words), |tape|, false))
    else if s.words[c + 1] != Checksum(content) then Err(ChecksumMismatch(s.words[c + 1], Checksum(content)))
    else Ok(BarsCopied(EncodeWords(s.words), s.next, Next(tape, s.next).Assembled?))
  }

  /** copy_bars from tape position pos: the count word must follow a gap. */
  function CopyBarsSpec(tape: seq<Frame>, pos: nat): (r: Result<BarsCopied>)
    requires pos <= |tape|
    ensures r.Err? ==> CopyFault(r.fault)
    ensures r.Ok? ==> pos <= r.value.next <= |tape|
    ensures r.Ok? && r.value.more ==> Next(tape, r.value.next).Assembled?
  {
    var head := ReadWords(tape, pos, 1);
    if head.stop.StoppedAtInner? then Err(InnerBlank(head.stop.frames, 0))
    else if head.stop.StoppedAtEof? then Ok(BarsCopied([], |tape|, false))
    else if head.gaps[0] == 0 then Err(NoGapBeforeBars)
    else
      BlockScanFrom(tape, pos);
      BarsCopyVerdict(tape, ReadWords(tape, pos, head.words[0] + 2), head.words[0])
  }

  /* ---------------------------------------------------------------------
   * The sequencing of main.
   * --------------------------------------------------------------------- */

  /** The last peek of main: any word left is an error; the blank run before EOF is copied. */
  function Trailer(tape: seq<Frame>, pos: nat): (r: Result<seq<Frame>>)
    requires pos <= |tape|
    ensures r.Ok? <==> !Next(tape, pos).Assembled?
    ensures r.Ok? ==> r.value == Blanks(Next(tape, pos).gap)
    ensures r.Err? ==> r.fault == TrailingData
  {
    var t := Next(tape, pos);
    if t.Assembled? then Err(TrailingData) else Ok(Blanks(t.gap))
  }

  /** Frames already written in front of the rest of a run. */
  function Then(prefix: seq<Frame>, r: Result<seq<Frame>>): (t: Result<seq<Frame>>)
    ensures t.Ok? <==> r.Ok?
    ensures t.Err? ==> t.fault == r.fault
    ensures t.Ok? ==> prefix <= t.value && t.value[|prefix|..] == r.value
  {
    if r.Ok? then Ok(prefix + r.value) else r
  }

  /** One voice as main copies it, up to the voice gap. */
  datatype CopiedVoice = CopiedVoice(frames: seq<Frame>, next: nat, more: bool)

  /**
   * One voice from tape position pos: its Notes block, a peek that must
   * find a word (the inner gap, copied at the length read), and its Bars
   * block; `more` tells whether a word follows the Bars block.
   */
  function VoiceSpec(tape: seq<Frame>, pos: nat, tempo: nat): (r: Result<CopiedVoice>)
    requires pos <= |tape|
    ensures r.Err? ==> CopyFault(r.fault)
    ensures r.Ok? ==> pos < r.value.next <= |tape|
    ensures r.Ok? && r.value.more ==> Next(tape, r.value.next).Assembled?
  {
    match CopyNotesSpec(tape, pos, tempo)
    case Err(f) => Err(f)
    case Ok(n) =>
      var inner := Next(tape, n.next);
      if !inner.Assembled? then Err(MissingBars)
      else match CopyBarsSpec(tape, n.next)
        case Err(f) => Err(f)
        case Ok(b) => Ok(CopiedVoice(n.out + Blanks(inner.gap) + b.out, b.next, b.more))
  }

  /**
   * The voice loop of main from voice v on: each voice, then either the
   * trailer (no word follows) or a gap of the chosen length and the next
   * voice.
   */
  function TweakVoices(tape: seq<Frame>, pos: nat, tempo: nat, gap: int, v: nat): (r: Result<seq<Frame>>)
    requires pos <= |tape| && 1 <= v <= 5
    ensures r.Err? ==> CopyFault(r.fault)
    decreases 5 - v
  {
    if v > 4 then Trailer(tape, pos)
    else match VoiceSpec(tape, pos, tempo)
      case Err(f) => Err(f)
      case Ok(voice) =>
        if !voice.more then Then(voice.frames, Trailer(tape, voice.next))
        else Then(voice.frames + Blanks(gap), TweakVoices(tape, voice.next, tempo, gap, v + 1))
  }

  /** The whole run: the leader is copied at its length, then the voices. */
  function TweakSpec(tape: seq<Frame>, tempo: nat, gap: int): (r: Result<seq<Frame>>)
    ensures r == Err(EmptyTape) <==> !Next(tape, 0).Assembled?
    ensures r.Err? ==> CopyFault(r.fault) || r.fault == EmptyTape
    ensures r.Ok? ==> Blanks(Next(tape, 0).gap) <= r.value
  {
    var lead := Next(tape, 0);
    if !lead.Assembled? then Err(EmptyTape)
    else Then(Blanks(lead.gap), TweakVoices(tape, 0, tempo, gap, 1))
  }

  /* ---------------------------------------------------------------------
   * What the copies promise.
   * --------------------------------------------------------------------- */

  /** The count word, the content words read and the checksum word of a good Notes block. */
  lemma NotesCopyWords(tape: seq<Frame>, pos: nat, tempo: nat)
    requires pos <= |tape| && CopyNotesSpec(tape, pos, tempo).Ok?
    ensures ReadWords(tape, pos, 1).stop.Complete?
    ensures var c := ReadWords(tape, pos, 1).words[0];
      var s := ReadWords(tape, pos, c + 2);
      && BlockScanOf(s, c) && s.stop.Complete? && s.words[c + 1] == Checksum(Content(s, c))
      && CopyNotesSpec(tape, pos, tempo).value == Copied(BlockFrames(c, Rewrite(Content(s, c), tempo)), s.next)
  {
    BlockScanFrom(tape, pos);
  }

  /**
   * Without a tempo, copy_notes writes its input block word for word: the
   * count, every content word and the checksum word it read.
   */
  lemma NotesVerbatim(tape: seq<Frame>, pos: nat)
    requires pos <= |tape| && CopyNotesSpec(tape, pos, NoTempo).Ok?
    ensures var c := ReadWords(tape, pos, 1).words[0];
      CopyNotesSpec(tape, pos, NoTempo).value.out == EncodeWords(ReadWords(tape, pos, c + 2).words)
  {
    NotesCopyWords(tape, pos, NoTempo);
    var c := ReadWords(tape, pos, 1).words[0];
    var s := ReadWords(tape, pos, c + 2);
    var content := Content(s, c);
    RewriteNoTempo(content);
    assert s.words == [c] + content + [s.words[c + 1]];
  }

  /* ---------------------------------------------------------------------
   * Block scans, as the copying methods see them.
   * --------------------------------------------------------------------- */

  /** The first read_next_word of copy_notes: a stop there decides the block. */
  lemma NotesCopyStart(tape: seq<Frame>, pos: nat, tempo: nat)
    requires pos <= |tape|
    ensures var st := StepOf(Next(tape, pos));
      && (st.InnerFrames? ==> CopyNotesSpec(tape, pos, tempo) == Err(InnerBlank(st.frames, 0)))
      && (st.Ended? ==> CopyNotesSpec(tape, pos, tempo) == Err(EofInNotes))
      && (st.Got? ==> ReadSoFar(tape, pos, [st.word], After(tape, Next(tape, pos))))
  {
    ReadStep(tape, pos, [], pos);
  }

  /** A stop inside a Notes block, after the count c and the words `content`, is fatal. */
  lemma NotesCopyStopped(tape: seq<Frame>, pos: nat, tempo: nat, c: nat, content: seq<nat>, at: nat, step: Step)
    requires ReadSoFar(tape, pos, [c] + content, at) && |content| <= c
    requires at <= |tape| && step == StepOf(Next(tape, at)) && !step.Got?
    ensures CopyNotesSpec(tape, pos, tempo) ==
      if step.InnerFrames? then Err(InnerBlank(step.frames, |content| + 1)) else Err(EofInNotes)
  {
    ScanStopped(tape, pos, c, content, at, step);
  }

  /** The checksum word read after all c content words of a Notes block. */
  lemma NotesCopyComplete(tape: seq<Frame>, pos: nat, tempo: nat, c: nat, content: seq<nat>, at: nat, step: Step)
    requires ReadSoFar(tape, pos, [c] + content, at) && |content| == c && AllWords(content)
    requires at <= |tape| && step == StepOf(Next(tape, at)) && step.Got?
    ensures CopyNotesSpec(tape, pos, tempo) ==
      if step.word != Checksum(content) then Err(ChecksumMismatch(step.word, Checksum(content)))
      else Ok(Copied(BlockFrames(c, Rewrite(content, tempo)), After(tape, Next(tape, at))))
  {
    ScanComplete(tape, pos, c, content, at, step);
  }

  /** The first read_next_word of copy_bars: a stop there, or a missing gap, decides the block. */
  lemma BarsCopyStart(tape: seq<Frame>, pos: nat)
    requires pos <= |tape|
    ensures var st := StepOf(Next(tape, pos));
      && (st.InnerFrames? ==> CopyBarsSpec(tape, pos) == Err(InnerBlank(st.frames, 0)))
      && (st.Ended? ==> CopyBarsSpec(tape, pos) == Ok(BarsCopied([], |tape|, false)))
      && (st.Got? && st.gap == 0 ==> CopyBarsSpec(tape, pos) == Err(NoGapBeforeBars))
      && (st.Got? ==> ReadSoFar(tape, pos, [st.word], After(tape, Next(tape, pos))))
      && (st.Got? ==> ReadWords(tape, pos, 1).gaps[0] == st.gap)
  {
    ReadStep(tape, pos, [], pos);
  }

  /** A stop inside a Bars block: inner blank frames are fatal, EOF ends the tape with the words read. */
  lemma BarsCopyStopped(tape: seq<Frame>, pos: nat, c: nat, content: seq<nat>, at: nat, step: Step)
    requires ReadSoFar(tape, pos, [c] + content, at) && |content| <= c
    requires ReadWords(tape, pos, 1).stop.Complete? && ReadWords(tape, pos, 1).gaps[0] > 0
    requires at <= |tape| && step == StepOf(Next(tape, at)) && !step.Got?
    ensures CopyBarsSpec(tape, pos) ==
      if step.InnerFrames? then Err(InnerBlank(step.frames, |content| + 1))
      else Ok(BarsCopied(EncodeWords([c] + content), |tape|, false))
  {
    ScanStopped(tape, pos, c, content, at, step);
    ScanStoppedWords(tape, pos, c, content, at, step);
  }

  /** The checksum word read after all c content words of a Bars block, then the peek. */
  lemma BarsCopyComplete(tape: seq<Frame>, pos: nat, c: nat, content: seq<nat>, at: nat, step: Step)
    requires ReadSoFar(tape, pos, [c] + content, at) && |content| == c && AllWords(content)
    requires ReadWords(tape, pos, 1).stop.Complete? && ReadWords(tape, pos, 1).gaps[0] > 0
    requires at <= |tape| && step == StepOf(Next(tape, at)) && step.Got?
    ensures After(tape, Next(tape, at)) <= |tape|
    ensures var next := After(tape, Next(tape, at));
      CopyBarsSpec(tape, pos) ==
        if step.word != Checksum(content) then Err(ChecksumMismatch(step.word, Checksum(content)))
        else Ok(BarsCopied(EncodeWords([c] + content + [step.word]), next, Next(tape, next).Assembled?))
  {
    ScanComplete(tape, pos, c, content, at, step);
    ScanCompleteWords(tape, pos, c, content, at, step);
  }

  /** Writing one more rewritten content word extends the block written so far. */
  lemma WrittenSnoc(c: nat, content: seq<nat>, w: nat, tempo: nat)
    ensures EncodeWords([c] + Rewrite(content, tempo)) + Ppb(RewriteWord(w, tempo))
         == EncodeWords([c] + Rewrite(content + [w], tempo))
  {
    RewriteSnoc(content, w, tempo);
    EncodeWordsSnoc([c] + Rewrite(content, tempo), RewriteWord(w, tempo));
    assert [c] + Rewrite(content, tempo) + [RewriteWord(w, tempo)] == [c] + Rewrite(content + [w], tempo);
  }

  lemma CopiedSnoc(c: nat, content: seq<nat>, w: nat)
    ensures EncodeWords([c] + content) + Ppb(w) == EncodeWords([c] + (content + [w]))
  {
    EncodeWordsSnoc([c] + content, w);
    assert [c] + content + [w] == [c] + (content + [w]);
  }

  /* ---------------------------------------------------------------------
   * The copying methods.
   * --------------------------------------------------------------------- */

  /**
   * One read_next_word inside a block, after the count c and the words
   * `content`: a word read extends what was read so far.
   */
  method ReadContentWord(reader: Reader, c: nat, content: seq<nat>, ghost pos0: nat, count: nat)
      returns (step: Step, count': nat)
    requires reader.Valid() && ReadSoFar(reader.tape, pos0, [c] + content, reader.pos)
    modifies reader
    ensures reader.Valid() && old(reader.pos) <= |reader.tape|
    ensures step == StepOf(Next(reader.tape, old(reader.pos)))
    ensures reader.pos == After(reader.tape, Next(reader.tape, old(reader.pos)))
    ensures count' == if step.Got? then count + 1 else count
    ensures step.Got? ==> IsWord(step.word) && ReadSoFar(reader.tape, pos0, [c] + (content + [step.word]), reader.pos)
  {
    ghost var tape, at := reader.tape, reader.pos;
    step, count' := reader.ReadNextWord(count);
    if step.Got? {
      assert ReadSoFar(tape, pos0, [c] + (content + [step.word]), reader.pos) by { ScanNext(tape, pos0, c, content, at); }
      assert IsWord(step.word) by {
        assert ReadWords(tape, pos0, |content| + 2).words[|content| + 1] == step.word;
      }
    }
  }

  /**
   * One pass of copy_notes' content loop: read a word, fold it into the
   * checksum of the input, write it (a tempo word as the requested tempo)
   * and fold what was written into the new checksum.
   */
  method CopyNoteWord(reader: Reader, writer: Writer, c: nat, tempo: nat, ghost pos0: nat, content: seq<nat>,
                      checksum: nat, newChecksum: nat, count: nat)
      returns (step: Step, word: nat, checksum': nat, newChecksum': nat, count': nat)
    requires reader.Valid() && ReadSoFar(reader.tape, pos0, [c] + content, reader.pos)
    requires AllWords(content) && checksum == Checksum(content) && newChecksum == Checksum(Rewrite(content, tempo))
    modifies reader, writer
    ensures reader.Valid() && old(reader.pos) <= |reader.tape|
    ensures step == StepOf(Next(reader.tape, old(reader.pos)))
    ensures reader.pos == After(reader.tape, Next(reader.tape, old(reader.pos)))
    ensures count' == if step.Got? then count + 1 else count
    ensures step.Got? ==>
      && word == step.word && IsWord(word) && ReadSoFar(reader.tape, pos0, [c] + (content + [word]), reader.pos)
      && checksum' == Checksum(content + [word]) && newChecksum' == Checksum(Rewrite(content + [word], tempo))
      && writer.out == old(writer.out) + Ppb(RewriteWord(word, tempo))
  {
    step, count' := ReadContentWord(reader, c, content, pos0, count);
    word, checksum', newChecksum' := 0, checksum, newChecksum;
    if !step.Got? {
      return;
    }
    word := step.word;
    ChecksumSnoc(content, word);
    checksum' := AddOnes(checksum, word);
    var newWord := word;
    if IsTempo(word) && tempo != NoTempo {
      newWord := TempoWord(tempo);
    }
    assert newWord == RewriteWord(word, tempo);
    writer.PutWord(newWord);
    RewriteSnoc(content, word, tempo);
    ChecksumSnoc(Rewrite(content, tempo), newWord);
    newChecksum' := AddOnes(newChecksum, newWord);
  }

  /**
   * The count word and the content loop of copy_notes: the count is
   * written as read; each content word read is folded into the
   * checksum of the input, written (a tempo word as the requested tempo),
   * and what was written is folded into the new checksum.
   */
  method CopyNoteWords(reader: Reader, writer: Writer, c: nat, tempo: nat, ghost pos0: nat)
      returns (f: Option<Fault>, content: seq<nat>, checksum: nat, newChecksum: nat)
    requires reader.Valid() && ReadSoFar(reader.tape, pos0, [c], reader.pos)
    modifies reader, writer
    ensures reader.Valid()
    ensures f.Some? ==> CopyNotesSpec(reader.tape, pos0, tempo) == Err(f.value)
    ensures f.None? ==>
      && |content| == c && AllWords(content) && ReadSoFar(reader.tape, pos0, [c] + content, reader.pos)
      && checksum == Checksum(content) && newChecksum == Checksum(Rewrite(content, tempo))
      && writer.out == old(writer.out) + EncodeWords([c] + Rewrite(content, tempo))
  {
    ghost var tape, out0 := reader.tape, writer.out;
    writer.PutWord(c);
    content, checksum, newChecksum := [], 0, 0;
    assert [c] + content == [c];
    assert writer.out == out0 + EncodeWords([c] + Rewrite(content, tempo)) by {
      assert EncodeWords([c]) == Ppb(c);
    }
    var count := 1;
    while count < c + 1
      invariant reader.Valid() && reader.tape == tape
      invariant 1 <= count <= c + 1 && |content| == count - 1 && AllWords(content)
      invariant ReadSoFar(tape, pos0, [c] + content, reader.pos)
      invariant checksum == Checksum(content) && newChecksum == Checksum(Rewrite(content, tempo))
      invariant writer.out == out0 + EncodeWords([c] + Rewrite(content, tempo))
      decreases c + 1 - count
    {
      ghost var at := reader.pos;
      var step, word, checksum', newChecksum', count' := CopyNoteWord(reader, writer, c, tempo, pos0, content, checksum, newChecksum, count);
      if !step.Got? {
        f := Some(if step.InnerFrames? then InnerBlank(step.frames, count) else EofInNotes);
        assert CopyNotesSpec(tape, pos0, tempo) == Err(f.value) by {
          NotesCopyStopped(tape, pos0, tempo, c, content, at, step);
        }
        return;
      }
      WrittenSnoc(c, content, word, tempo);
      ConcatAssoc(out0, EncodeWords([c] + Rewrite(content, tempo)), Ppb(RewriteWord(word, tempo)));
      content := content + [word];
      checksum, newChecksum, count := checksum', newChecksum', count';
    }
    f := None;
  }

  /**
   * copy_notes: the count word, the content (tempo words rewritten), then
   * the checksum word compared with the fold of the input content; the
   * block ends with the fold of what was written.
   */
  method CopyNotes(reader: Reader, writer: Writer, tempo: nat) returns (f: Option<Fault>)
    requires reader.Valid()
    modifies reader, writer
    ensures reader.Valid()
    ensures var spec := CopyNotesSpec(reader.tape, old(reader.pos), tempo);
      && (f.None? <==> spec.Ok?) && (f.Some? ==> spec == Err(f.value))
      && (spec.Ok? ==> reader.pos == spec.value.next && writer.out == old(writer.out) + spec.value.out)
  {
    ghost var tape, pos0, out0 := reader.tape, reader.pos, writer.out;
    var step, count := reader.ReadNextWord(0);
    if !step.Got? {
      f := Some(if step.InnerFrames? then InnerBlank(step.frames, 0) else EofInNotes);
      assert CopyNotesSpec(tape, pos0, tempo) == Err(f.value) by { NotesCopyStart(tape, pos0, tempo); }
      return;
    }
    var c := step.word;
    assert ReadSoFar(tape, pos0, [c], reader.pos) by { NotesCopyStart(tape, pos0, tempo); }
    var content, checksum, newChecksum;
    f, content, checksum, newChecksum := CopyNoteWords(reader, writer, c, tempo, pos0);
    if f.Some? {
      return;
    }
    ghost var at := reader.pos;
    step, count := ReadContentWord(reader, c, content, pos0, c + 1);
    if !step.Got? {
      f := Some(if step.InnerFrames? then InnerBlank(step.frames, c + 1) else EofInNotes);
      assert CopyNotesSpec(tape, pos0, tempo) == Err(f.value) by {
        NotesCopyStopped(tape, pos0, tempo, c, content, at, step);
      }
      return;
    }
    var x := step.word;
    if x != checksum {
      f := Some(ChecksumMismatch(x, checksum));
      assert CopyNotesSpec(tape, pos0, tempo) == Err(f.value) by {
        NotesCopyComplete(tape, pos0, tempo, c, content, at, step);
      }
      return;
    }
    writer.PutWord(newChecksum);
    f := None;
    assert writer.out == out0 + BlockFrames(c, Rewrite(content, tempo)) by {
      EncodeWordsSnoc([c] + Rewrite(content, tempo), newChecksum);
    }
    assert CopyNotesSpec(tape, pos0, tempo) == Ok(Copied(BlockFrames(c, Rewrite(content, tempo)), reader.pos)) by {
      NotesCopyComplete(tape, pos0, tempo, c, content, at, step);
    }
  }

  /** One pass of copy_bars' content loop: read a word, fold it into the checksum, write it as it is. */
  method CopyBarWord(reader: Reader, writer: Writer, c: nat, ghost pos0: nat, content: seq<nat>,
                     checksum: nat, count: nat)
      returns (step: Step, word: nat, checksum': nat, count': nat)
    requires reader.Valid() && ReadSoFar(reader.tape, pos0, [c] + content, reader.pos)
    requires AllWords(content) && checksum == Checksum(content)
    modifies reader, writer
    ensures reader.Valid() && old(reader.pos) <= |reader.tape|
    ensures step == StepOf(Next(reader.tape, old(reader.pos)))
    ensures reader.pos == After(reader.tape, Next(reader.tape, old(reader.pos)))
    ensures count' == if step.Got? then count + 1 else count
    ensures !step.Got? ==> writer.out == old(writer.out)
    ensures step.Got? ==>
      && word == step.word && IsWord(word) && ReadSoFar(reader.tape, pos0, [c] + (content + [word]), reader.pos)
      && checksum' == Checksum(content + [word]) && writer.out == old(writer.out) + Ppb(word)
  {
    step, count' := ReadContentWord(reader, c, content, pos0, count);
    word, checksum' := 0, checksum;
    if !step.Got? {
      return;
    }
    word := step.word;
    ChecksumSnoc(content, word);
    checksum' := AddOnes(checksum, word);
    writer.PutWord(word);
  }

  /**
   * The count word and the content loop of copy_bars: every word read is
   * written as it is and folded into the checksum. `ended` is set when the
   * block stopped early: a fault, or EOF, which ends the tape normally.
   */
  method CopyBarWords(reader: Reader, writer: Writer, c: nat, ghost pos0: nat)
      returns (ended: bool, f: Option<Fault>, content: seq<nat>, checksum: nat)
    requires reader.Valid() && ReadSoFar(reader.tape, pos0, [c], reader.pos)
    requires ReadWords(reader.tape, pos0, 1).stop.Complete? && ReadWords(reader.tape, pos0, 1).gaps[0] > 0
    modifies reader, writer
    ensures reader.Valid()
    ensures ended ==> var spec := CopyBarsSpec(reader.tape, pos0);
      && (f.Some? ==> spec == Err(f.value))
      && (f.None? ==> spec.Ok? && !spec.value.more && reader.pos == spec.value.next
                      && writer.out == old(writer.out) + spec.value.out)
    ensures !ended ==>
      && |content| == c && AllWords(content) && ReadSoFar(reader.tape, pos0, [c] + content, reader.pos)
      && checksum == Checksum(content) && writer.out == old(writer.out) + EncodeWords([c] + content)
  {
    ghost var tape, out0 := reader.tape, writer.out;
    writer.PutWord(c);
    content, checksum := [], 0;
    assert [c] + content == [c];
    assert writer.out == out0 + EncodeWords([c] + content) by {
      assert EncodeWords([c]) == Ppb(c);
    }
    var count := 1;
    while count < c + 1
      invariant reader.Valid() && reader.tape == tape
      invariant 1 <= count <= c + 1 && |content| == count - 1 && AllWords(content)
      invariant ReadSoFar(tape, pos0, [c] + content, reader.pos)
      invariant checksum == Checksum(content)
      invariant writer.out == out0 + EncodeWords([c] + content)
      decreases c + 1 - count
    {
      ghost var at := reader.pos;
      var step, word, checksum', count' := CopyBarWord(reader, writer, c, pos0, content, checksum, count);
      if !step.Got? {
        ended := true;
        f := if step.InnerFrames? then Some(InnerBlank(step.frames, count)) else None;
        assert CopyBarsSpec(tape, pos0) ==
          if step.InnerFrames? then Err(InnerBlank(step.frames, |content| + 1))
          else Ok(BarsCopied(EncodeWords([c] + content), |tape|, false)) by {
          BarsCopyStopped(tape, pos0, c, content, at, step);
        }
        return;
      }
      CopiedSnoc(c, content, word);
      ConcatAssoc(out0, EncodeWords([c] + content), Ppb(word));
      content := content + [word];
      checksum, count := checksum', count';
    }
    ended, f := false, None;
  }

  /**
   * copy_bars: the count word (after a gap), the content and the checksum
   * word, each written as read; the checksum must match the fold of the
   * content; then a peek for another voice.
   */
  method CopyBars(reader: Reader, writer: Writer) returns (f: Option<Fault>, more: bool)
    requires reader.Valid()
    modifies reader, writer
    ensures reader.Valid()
    ensures var spec := CopyBarsSpec(reader.tape, old(reader.pos));
      && (f.None? <==> spec.Ok?) && (f.Some? ==> spec == Err(f.value))
      && (spec.Ok? ==> reader.pos == spec.value.next && more == spec.value.more
                       && writer.out == old(writer.out) + spec.value.out)
  {
    ghost var tape, pos0, out0 := reader.tape, reader.pos, writer.out;
    more := false;
    var step, count := reader.ReadNextWord(0);
    if step.InnerFrames? {
      f := Some(InnerBlank(step.frames, 0));
      assert CopyBarsSpec(tape, pos0) == Err(f.value) by { BarsCopyStart(tape, pos0); }
      return;
    } else if step.Ended? {
      f := None;
      assert CopyBarsSpec(tape, pos0) == Ok(BarsCopied([], reader.pos, false)) by { BarsCopyStart(tape, pos0); }
      return;
    } else if step.gap == 0 {
      f := Some(NoGapBeforeBars);
      assert CopyBarsSpec(tape, pos0) == Err(f.value) by { BarsCopyStart(tape, pos0); }
      return;
    }
    var c := step.word;
    assert ReadSoFar(tape, pos0, [c], reader.pos) && ReadWords(tape, pos0, 1).gaps[0] > 0 by {
      BarsCopyStart(tape, pos0);
    }
    var ended, content, checksum;
    ended, f, content, checksum := CopyBarWords(reader, writer, c, pos0);
    if ended {
      return;
    }
    ghost var at := reader.pos;
    step, count := ReadContentWord(reader, c, content, pos0, c + 1);
    if !step.Got? {
      f := if step.InnerFrames? then Some(InnerBlank(step.frames, c + 1)) else None;
      assert CopyBarsSpec(tape, pos0) ==
        if step.InnerFrames? then Err(InnerBlank(step.frames, |content| + 1))
        else Ok(BarsCopied(EncodeWords([c] + content), |tape|, false)) by {
        BarsCopyStopped(tape, pos0, c, content, at, step);
      }
      return;
    }
    var x := step.word;
    if x != checksum {
      f := Some(ChecksumMismatch(x, checksum));
      assert CopyBarsSpec(tape, pos0) == Err(f.value) by {
        BarsCopyComplete(tape, pos0, c, content, at, step);
      }
      return;
    }
    writer.PutWord(x);
    assert writer.out == out0 + EncodeWords([c] + content + [x]) by {
      EncodeWordsSnoc([c] + content, x);
    }
    var gapAfter;
    more, gapAfter := reader.PeekGap();
    f := None;
    assert CopyBarsSpec(tape, pos0) == Ok(BarsCopied(EncodeWords([c] + content + [x]), reader.pos, more)) by {
      BarsCopyComplete(tape, pos0, c, content, at, step);
    }
  }

  /* ---------------------------------------------------------------------
   * main.
   * --------------------------------------------------------------------- */

  lemma ThenThen(a: seq<Frame>, b: seq<Frame>, r: Result<seq<Frame>>)
    ensures Then(a, Then(b, r)) == Then(a + b, r)
  {
    if r.Ok? {
      assert a + (b + r.value) == a + b + r.value;
    }
  }

  /** One voice whose Notes and Bars blocks were copied. */
  lemma TweakVoiceStep(tape: seq<Frame>, pos: nat, tempo: nat, gap: int, v: nat, n: Copied, b: BarsCopied)
    requires pos <= |tape| && 1 <= v <= 4
    requires CopyNotesSpec(tape, pos, tempo) == Ok(n) && Next(tape, n.next).Assembled?
    requires CopyBarsSpec(tape, n.next) == Ok(b)
    ensures b.next <= |tape|
    ensures var voice := n.out + Blanks(Next(tape, n.next).gap) + b.out;
      TweakVoices(tape, pos, tempo, gap, v) ==
        if !b.more then Then(voice, Trailer(tape, b.next))
        else Then(voice + Blanks(gap), TweakVoices(tape, b.next, tempo, gap, v + 1))
  {
  }

  /** A voice whose Notes block, inner gap or Bars block fails ends the run with that fault. */
  lemma TweakVoiceFault(tape: seq<Frame>, pos: nat, tempo: nat, gap: int, v: nat)
    requires pos <= |tape| && 1 <= v <= 4
    ensures var n := CopyNotesSpec(tape, pos, tempo);
      && (n.Err? ==> TweakVoices(tape, pos, tempo, gap, v) == Err(n.fault))
      && (n.Ok? && !Next(tape, n.value.next).Assembled? ==> TweakVoices(tape, pos, tempo, gap, v) == Err(MissingBars))
      && (n.Ok? && Next(tape, n.value.next).Assembled? && CopyBarsSpec(tape, n.value.next).Err? ==>
            TweakVoices(tape, pos, tempo, gap, v) == Err(CopyBarsSpec(tape, n.value.next).fault))
  {
  }

  /**
   * One pass of main's voice loop up to the voice gap: copy_notes, the
   * peek for the inner gap, the inner gap, copy_bars.
   */
  method TweakVoice(reader: Reader, writer: Writer, tempo: nat) returns (f: Option<Fault>, more: bool)
    requires reader.Valid()
    modifies reader, writer
    ensures reader.Valid()
    ensures var spec := VoiceSpec(reader.tape, old(reader.pos), tempo);
      && (f.None? <==> spec.Ok?) && (f.Some? ==> spec == Err(f.value))
      && (spec.Ok? ==> reader.pos == spec.value.next && more == spec.value.more
                       && writer.out == old(writer.out) + spec.value.frames)
  {
    ghost var tape, pos, out := reader.tape, reader.pos, writer.out;
    more := false;
    f := CopyNotes(reader, writer, tempo);
    if f.Some? {
      return;
    }
    ghost var n := CopyNotesSpec(tape, pos, tempo).value;
    ghost var out1 := writer.out;
    var found, inner := reader.PeekGap();
    if !found {
      f := Some(MissingBars);
      return;
    }
    writer.WriteGap(inner);
    ghost var out2 := writer.out;
    f, more := CopyBars(reader, writer);
    if f.Some? {
      return;
    }
    ghost var b := CopyBarsSpec(tape, n.next).value;
    assert writer.out == out + (n.out + Blanks(inner) + b.out) by {
      assert out1 == out + n.out && out2 == out1 + Blanks(inner) && writer.out == out2 + b.out;
      ConcatAssoc(out, n.out, Blanks(inner));
      ConcatAssoc(out, n.out + Blanks(inner), b.out);
    }
  }

  /** The last voice: what was written before it, then it, then the trailer. */
  lemma VoiceEnds(tape: seq<Frame>, pos: nat, tempo: nat, gap: int, v: nat, voice: CopiedVoice, out: seq<Frame>)
    requires pos <= |tape| && 1 <= v <= 4 && VoiceSpec(tape, pos, tempo) == Ok(voice) && !voice.more
    ensures Then(out + voice.frames, Trailer(tape, voice.next)) == Then(out, TweakVoices(tape, pos, tempo, gap, v))
  {
    ThenThen(out, voice.frames, Trailer(tape, voice.next));
  }

  /** A voice followed by another: what was written before it, then it and the voice gap, then the rest. */
  lemma VoiceContinues(tape: seq<Frame>, pos: nat, tempo: nat, gap: int, v: nat, voice: CopiedVoice, out: seq<Frame>)
    requires pos <= |tape| && 1 <= v <= 4 && VoiceSpec(tape, pos, tempo) == Ok(voice) && voice.more
    ensures Then(out + voice.frames + Blanks(gap), TweakVoices(tape, voice.next, tempo, gap, v + 1))
         == Then(out, TweakVoices(tape, pos, tempo, gap, v))
  {
    ThenThen(out, voice.frames + Blanks(gap), TweakVoices(tape, voice.next, tempo, gap, v + 1));
    assert out + voice.frames + Blanks(gap) == out + (voice.frames + Blanks(gap));
  }

  /**
   * main after the arguments: leader, then up to four voices (Notes block,
   * inner gap, Bars block, voice gap), then the trailer.
   */
  method Tweak(tape: seq<Frame>, tempo: nat, gap: int) returns (r: Result<seq<Frame>>)
    ensures r == TweakSpec(tape, tempo, gap)
  {
    var reader := new Reader(tape);
    var writer := new Writer();
    var found, lead := reader.PeekGap();
    if !found {
      return Err(EmptyTape);
    }
    writer.WriteGap(lead);
    assert writer.out == Blanks(lead);
    var voice := 1;
    while voice <= 4
      invariant reader.Valid() && reader.tape == tape && 1 <= voice <= 5
      invariant Then(writer.out, TweakVoices(tape, reader.pos, tempo, gap, voice)) == TweakSpec(tape, tempo, gap)
      decreases 5 - voice
    {
      ghost var pos, out := reader.pos, writer.out;
      var f, more := TweakVoice(reader, writer, tempo);
      if f.Some? {
        return Err(f.value);
      }
      ghost var copied := VoiceSpec(tape, pos, tempo).value;
      if !more {
        VoiceEnds(tape, pos, tempo, gap, voice, copied, out);
        break;
      }
      writer.WriteGap(gap);
      VoiceContinues(tape, pos, tempo, gap, voice, copied, out);
      voice := voice + 1;
    }
    var trailing, trailer := reader.PeekGap();
    if trailing {
      return Err(TrailingData);
    }
    writer.WriteGap(trailer);
    r := Ok(writer.out);
  }

  /* ---------------------------------------------------------------------
   * The arguments of main.
   * --------------------------------------------------------------------- */

  /** The two settings main takes from its arguments. */
  datatype Settings = Settings(tempo: nat, gap: int)

  /** (unsigned)atoi(...): the value atoi returned, taken modulo 2^32. */
  function AsUInt32(x: int): (u: nat)
    ensures u < UInt32Limit && (u - x) % UInt32Limit == 0
  {
    x % UInt32Limit
  }

  /**
   * main's argument handling as written. argc counts the program name;
   * tempoArg and gapArg are what atoi made of argv[3] and argv[4]. The
   * tempo is taken only when argc is exactly 4, so giving a gap length as
   * well switches the tempo override off.
   */
  function SettingsOf(argc: int, tempoArg: int, gapArg: int): (r: Result<Settings>)
    ensures r.Ok? <==> 3 <= argc <= 5
    ensures r.Err? ==> r.fault == Usage
    ensures r.Ok? ==> r.value.gap == if argc == 5 then gapArg else DefaultGap
  {
    if argc < 3 || argc > 5 then Err(Usage)
    else Ok(Settings(if argc == 4 then AsUInt32(tempoArg) else NoTempo, if argc == 5 then gapArg else DefaultGap))
  }

  /** With a tempo and a gap length given, the tempo is dropped: no tempo word is ever rewritten. */
  lemma SettingsDropTempo(tempoArg: int, gapArg: int, content: seq<nat>)
    ensures SettingsOf(5, tempoArg, gapArg) == Ok(Settings(NoTempo, gapArg))
    ensures Rewrite(content, SettingsOf(5, tempoArg, gapArg).value.tempo) == content
  {
    RewriteNoTempo(content);
  }

  /** The counterexample: tempo 120 with gap 30 leaves the tempo words as they were. */
  lemma SettingsDropTempoExample()
    ensures SettingsOf(5, 120, 30).value.tempo == NoTempo
    ensures RewriteWord(TempoTag + 100, SettingsOf(5, 120, 30).value.tempo) == TempoTag + 100
  {
  }

  /** The handling the usage line describes: the tempo is argv[3] whenever it is given. */
  function IntendedSettingsOf(argc: int, tempoArg: int, gapArg: int): (r: Result<Settings>)
    ensures r.Ok? <==> 3 <= argc <= 5
    ensures r.Err? ==> r.fault == Usage
  {
    if argc < 3 || argc > 5 then Err(Usage)
    else Ok(Settings(if argc >= 4 then AsUInt32(tempoArg) else NoTempo, if argc == 5 then gapArg else DefaultGap))
  }

  /**
   * With the intended handling a given tempo is honoured whether or not a
   * gap length follows: every tempo word is written with the requested
   * tempo (unless the argument was -1, which main reads as no tempo).
   */
  lemma IntendedHonoursTempo(argc: int, tempoArg: int, gapArg: int, w: nat)
    requires 4 <= argc <= 5 && IsWord(w) && IsTempo(w)
    ensures var st := IntendedSettingsOf(argc, tempoArg, gapArg).value;
      && st.gap == (if argc == 5 then gapArg else DefaultGap)
      && (AsUInt32(tempoArg) != NoTempo ==> Classify(RewriteWord(w, st.tempo)) == TempoMark(tempoArg % TempoRange))
      && (AsUInt32(tempoArg) == NoTempo ==> RewriteWord(w, st.tempo) == w)
  {
    var st := IntendedSettingsOf(argc, tempoArg, gapArg).value;
    if st.tempo != NoTempo {
      RewriteMeaning(w, st.tempo);
      assert Classify(w).TempoMark? by { ClassifyExact(w); }
      assert st.tempo % TempoRange == tempoArg % TempoRange by { TempoBits(tempoArg); }
    }
  }

  /** The cast to uint32 keeps the low 15 bits. */
  lemma TempoBits(x: int)
    ensures AsUInt32(x) % TempoRange == x % TempoRange
  {
    var u, k := x % UInt32Limit, (x / UInt32Limit) * 0x2_0000;
    assert x == k * TempoRange + u;
    MultipleOff(k, u);
  }

  lemma MultipleOff(k: int, u: nat)
    ensures (k * TempoRange + u) % TempoRange == u % TempoRange
  {
  }

  /**
   * The whole program as written: the arguments, then the run over the
   * input tape. With both a tempo and a gap length the tempo is ignored.
   */
  function TweakRunSpec(argc: int, tempoArg: int, gapArg: int, tape: seq<Frame>): (r: Result<seq<Frame>>)
    ensures argc < 3 || argc > 5 ==> r == Err(Usage)
    ensures argc == 3 ==> r == TweakSpec(tape, NoTempo, DefaultGap)
    ensures argc == 4 ==> r == TweakSpec(tape, AsUInt32(tempoArg), DefaultGap)
    ensures argc == 5 ==> r == TweakSpec(tape, NoTempo, gapArg)
  {
    match SettingsOf(argc, tempoArg, gapArg)
    case Err(f) => Err(f)
    case Ok(st) => TweakSpec(tape, st.tempo, st.gap)
  }

  method TweakRun(argc: int, tempoArg: int, gapArg: int, tape: seq<Frame>) returns (r: Result<seq<Frame>>)
    ensures r == TweakRunSpec(argc, tempoArg, gapArg, tape)
  {
    var settings := SettingsOf(argc, tempoArg, gapArg);
    if settings.Err? {
      return Err(settings.fault);
    }
    r := Tweak(tape, settings.value.tempo, settings.value.gap);
  }

  /** The whole program with the intended argument handling: a tempo given before a gap length is kept. */
  function IntendedTweakRunSpec(argc: int, tempoArg: int, gapArg: int, tape: seq<Frame>): (r: Result<seq<Frame>>)
    ensures argc < 3 || argc > 5 ==> r == Err(Usage)
    ensures argc == 3 ==> r == TweakSpec(tape, NoTempo, DefaultGap)
    ensures argc == 4 ==> r == TweakSpec(tape, AsUInt32(tempoArg), DefaultGap)
    ensures argc == 5 ==> r == TweakSpec(tape, AsUInt32(tempoArg), gapArg)
  {
    match IntendedSettingsOf(argc, tempoArg, gapArg)
    case Err(f) => Err(f)
    case Ok(st) => TweakSpec(tape, st.tempo, st.gap)
  }
}
