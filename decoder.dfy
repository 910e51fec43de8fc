/**
 * The decoder of a Harmony Compiler intermediate tape: up to four voices,
 * each a Notes block followed by a Bars block. A block is a count word n,
 * n content words and a checksum word (the ones'-complement fold of the
 * content). Notes content goes into an 8192-entry buffer; every Bars word
 * is an index into it, and the listing of a bar is the run of notes from
 * that index up to the next 0600000 or the end of the Notes content.
 *
 * Each block reader is specified declaratively over ReadWords (the words on
 * the tape, as read_next_word sees them) and implemented by a method that
 * reads word by word, as the C loops do.
 */
module Decoder {
  import opened Word18
  import opened Outcomes
  import opened Tape
  import opened NoteCodec
  import opened Blocks

  /** NOTES_BUFFER_SIZE */
  const BufferSize: nat := 8192

  /** notes_count = total_word_count - 1, computed in uint32 (0 words wraps to 0xFFFFFFFF). */
  function NotesCountOf(c: nat): (n: nat)
    requires IsWord(c)
    ensures n < UInt32Limit
    ensures c > 0 ==> n == c - 1
    ensures c == 0 ==> n == UInt32Limit - 1
  {
    (c + UInt32Limit - 1) % UInt32Limit
  }

  /** The first fault of a run of checks, in order; None when every check passes. */
  function FirstFault(fs: seq<Option<Fault>>): Option<Fault>
  {
    if fs == [] then None
    else if fs[0].Some? then fs[0]
    else FirstFault(fs[1..])
  }

  /** No fault is reported exactly when every check passes. */
  lemma {:induction false} FirstFaultNone(fs: seq<Option<Fault>>)
    ensures FirstFault(fs).None? <==> forall i :: 0 <= i < |fs| ==> fs[i].None?
  {
    if fs != [] && fs[0].None? {
      FirstFaultNone(fs[1..]);
      assert forall i :: 1 <= i < |fs| ==> fs[i] == fs[1..][i - 1];
    }
  }

  /** The fault reported is the one at the first failing position. */
  lemma {:induction false} FirstFaultAt(fs: seq<Option<Fault>>, k: nat)
    requires k < |fs| && fs[k].Some?
    requires forall j :: 0 <= j < k ==> fs[j].None?
    ensures FirstFault(fs) == fs[k]
  {
    if k > 0 {
      assert fs[0].None?;
      assert fs[1..][k - 1] == fs[k];
      forall j | 0 <= j < k - 1 ensures fs[1..][j].None? {
        assert fs[1..][j] == fs[j + 1];
      }
      FirstFaultAt(fs[1..], k - 1);
    }
  }

  /**
   * read_notes, content word i: storing it in notes[i] overruns the buffer
   * from i = 8192 on; a pitched note word must carry a known articulation.
   */
  function NoteFault(i: nat, w: nat): (f: Option<Fault>)
    ensures i >= BufferSize ==> f == Some(BufferOverrun)
    ensures i < BufferSize ==> (f.Some? <==> Classify(w).ToneMark? && Classify(w).articulation.None?)
    ensures i < BufferSize && f.Some? ==> f.value == InvalidArticulation(ParseNote(w).articulation)
  {
    if i >= BufferSize then Some(BufferOverrun)
    else match Classify(w)
      case ToneMark(n, None) => Some(InvalidArticulation(n.articulation))
      case _ => None
  }

  /**
   * The Notes content checks in the terms of the word layout: overrun from
   * index 8192, or a word that is neither 0600000 nor a tempo, has a pitch
   * field above 1 and an articulation code outside {0, 1, 2, 4, 8}.
   */
  lemma NoteFaultExact(i: nat, w: nat)
    requires IsWord(w)
    ensures var n := ParseNote(w);
      NoteFault(i, w).Some? <==>
        i >= BufferSize || (w != Separator && !IsTempo(w) && n.pitch > 1 && n.articulation !in ArticulationCodes)
    ensures i < BufferSize && NoteFault(i, w).Some? ==> NoteFault(i, w) == Some(InvalidArticulation(ParseNote(w).articulation))
  {
    var m := Classify(w);
    assert m.ToneMark? <==> w != Separator && !IsTempo(w) && ParseNote(w).pitch > 1;
  }

  function NoteFaults(content: seq<nat>): (fs: seq<Option<Fault>>)
    ensures |fs| == |content|
  {
    seq(|content|, i requires 0 <= i < |content| => NoteFault(i, content[i]))
  }

  /** What read_notes leaves behind when the block is good. */
  datatype NotesRead = NotesRead(count: nat, content: seq<nat>, next: nat, wordCount: nat)

  /**
   * read_notes over the block scan s with count c: the content words (each
   * may fault, in order), then how the scan stopped, then the checksum word.
   * EOF anywhere is fatal for a Notes block.
   */
  function NotesVerdict(s: Scan, c: nat, wc: nat): (r: Result<NotesRead>)
    requires BlockScanOf(s, c)
    ensures r.Ok? ==> var n := r.value;
      && |n.content| == n.count == c <= BufferSize && AllWords(n.content)
      && n.next == s.next && n.wordCount == wc + c + 2
  {
    var content := Content(s, c);
    var bad := FirstFault(NoteFaults(content));
    if bad.Some? then Err(bad.value)
    else if s.stop.StoppedAtInner? then Err(InnerBlank(s.stop.frames, wc + |s.words|))
    else if s.stop.StoppedAtEof? then Err(EofInNotes)
    else if s.words[c + 1] != Checksum(content) then Err(ChecksumMismatch(s.words[c + 1], Checksum(content)))
    else
      FirstFaultNone(NoteFaults(content));
      assert |content| > 0 ==> NoteFaults(content)[|content| - 1].None?;
      Ok(NotesRead(c, content, s.next, wc + c + 2))
  }

  /**
   * read_notes from tape position pos with word_count wc: the count word,
   * then the rest of the block.
   */
  function ReadNotesSpec(tape: seq<Frame>, pos: nat, wc: nat): (r: Result<NotesRead>)
    requires pos <= |tape|
    ensures r.Ok? ==> var n := r.value;
      && |n.content| == n.count <= BufferSize && AllWords(n.content)
      && pos <= n.next <= |tape| && n.wordCount == wc + n.count + 2
      && IsWord(n.count)
  {
    var head := ReadWords(tape, pos, 1);
    if head.stop.StoppedAtInner? then Err(InnerBlank(head.stop.frames, wc))
    else if head.stop.StoppedAtEof? then Err(EofInNotes)
    else
      BlockScanFrom(tape, pos);
      NotesVerdict(ReadWords(tape, pos, head.words[0] + 2), head.words[0], wc)
  }

  /** The buffer after read_notes has stored the content from index 0; the rest is left as it was. */
  function Overwrite(buffer: seq<nat>, content: seq<nat>): (b: seq<nat>)
    requires |content| <= |buffer|
    ensures |b| == |buffer|
    ensures forall i :: 0 <= i < |content| ==> b[i] == content[i]
    ensures forall i :: |content| <= i < |buffer| ==> b[i] == buffer[i]
  {
    content + buffer[|content|..]
  }

  /**
   * The bar rendering loop of read_bars from index k: it reads notes[k]
   * first, and stops at a 0600000 or once k reaches the end of the Notes
   * content (limit). None: the read ran past the buffer.
   */
  function MeasureEnd(buffer: seq<nat>, k: nat, limit: nat): (r: Option<nat>)
    ensures r.Some? ==> k <= r.value < |buffer|
    decreases |buffer| - k
  {
    if k >= |buffer| then None
    else if buffer[k] == Separator || k >= limit then Some(k)
    else MeasureEnd(buffer, k + 1, limit)
  }

  /** The index where the rendering of a bar stops holds 0600000 or has reached the limit. */
  lemma {:induction false} MeasureEndAt(buffer: seq<nat>, k: nat, limit: nat)
    ensures var r := MeasureEnd(buffer, k, limit);
      r.Some? ==> buffer[r.value] == Separator || r.value >= limit
    decreases |buffer| - k
  {
    if k < |buffer| && buffer[k] != Separator && k < limit {
      MeasureEndAt(buffer, k + 1, limit);
    }
  }

  /** Every index the rendering of a bar walks over holds a note word below the limit. */
  lemma {:induction false} MeasureEndBefore(buffer: seq<nat>, k: nat, limit: nat, j: nat)
    requires MeasureEnd(buffer, k, limit).Some? && k <= j < MeasureEnd(buffer, k, limit).value
    ensures buffer[j] != Separator && j < limit
    decreases |buffer| - k
  {
    if j > k {
      MeasureEndBefore(buffer, k + 1, limit, j);
    }
  }

  /** No index from k to the end of the buffer stops the rendering of a bar. */
  predicate NoStopFrom(buffer: seq<nat>, k: nat, limit: nat)
  {
    forall j :: k <= j < |buffer| ==> buffer[j] != Separator && j < limit
  }

  /** The rendering of a bar runs past the buffer exactly when no index from k on stops it. */
  lemma {:induction false} MeasureEndNone(buffer: seq<nat>, k: nat, limit: nat)
    ensures MeasureEnd(buffer, k, limit).None? <==> NoStopFrom(buffer, k, limit)
    decreases |buffer| - k
  {
    if k >= |buffer| {
      assert MeasureEnd(buffer, k, limit).None?;
    } else if buffer[k] == Separator || k >= limit {
      assert MeasureEnd(buffer, k, limit) == Some(k);
      assert !(buffer[k] != Separator && k < limit);
    } else {
      MeasureEndNone(buffer, k + 1, limit);
      assert MeasureEnd(buffer, k, limit) == MeasureEnd(buffer, k + 1, limit);
      assert NoStopFrom(buffer, k, limit) <==> NoStopFrom(buffer, k + 1, limit) by {
        if NoStopFrom(buffer, k + 1, limit) {
          forall j | k <= j < |buffer| ensures buffer[j] != Separator && j < limit {
            if j > k { assert k + 1 <= j; }
          }
        }
      }
    }
  }

  /** One line of the Bars listing. */
  datatype BarLine =
    | EndMark                                // the closing 0600000
    | Bar(number: nat, notes: seq<nat>)      // measure number and the note words rendered for it

  /**
   * read_bars, content word i of a block of c: 0600000 only as the last
   * word; otherwise an index below notes_count whose rendering stays inside
   * the buffer.
   */
  function BarFault(i: nat, c: nat, w: nat, buffer: seq<nat>, limit: nat): (f: Option<Fault>)
    ensures f.None? <==>
      if w == Separator then i + 1 == c else w < limit && MeasureEnd(buffer, w, limit).Some?
  {
    if w == Separator then (if i + 1 != c then Some(EarlyBarsEnd) else None)
    else if w >= limit then Some(IndexOutOfRange(w))
    else if MeasureEnd(buffer, w, limit).None? then Some(BufferOverrun)
    else None
  }

  function BarFaults(content: seq<nat>, c: nat, buffer: seq<nat>, limit: nat): (fs: seq<Option<Fault>>)
    ensures |fs| == |content|
  {
    seq(|content|, i requires 0 <= i < |content| => BarFault(i, c, content[i], buffer, limit))
  }

  /** The listing line of Bars content word i (measure number i + 1). */
  function BarLineOf(i: nat, w: nat, buffer: seq<nat>, limit: nat): (l: BarLine)
    ensures l.EndMark? <==> w == Separator
    ensures l.Bar? ==> l.number == i + 1 && Separator !in l.notes
    ensures l.Bar? && MeasureEnd(buffer, w, limit).None? ==> l.notes == []
  {
    if w == Separator then EndMark
    else match MeasureEnd(buffer, w, limit)
      case Some(e) =>
        MeasureNotes(buffer, w, limit);
        Bar(i + 1, buffer[w..e])
      case None => Bar(i + 1, [])
  }

  /** The words a bar renders hold no 0600000. */
  lemma MeasureNotes(buffer: seq<nat>, k: nat, limit: nat)
    requires MeasureEnd(buffer, k, limit).Some?
    ensures Separator !in buffer[k..MeasureEnd(buffer, k, limit).value]
  {
    var e := MeasureEnd(buffer, k, limit).value;
    forall j | 0 <= j < e - k ensures buffer[k..e][j] != Separator {
      MeasureEndBefore(buffer, k, limit, k + j);
    }
  }

  function BarLines(content: seq<nat>, buffer: seq<nat>, limit: nat): (ls: seq<BarLine>)
    ensures |ls| == |content|
  {
    seq(|content|, i requires 0 <= i < |content| => BarLineOf(i, content[i], buffer, limit))
  }

  /** What read_bars leaves behind; `more` is false when the tape ended (the voice loop stops). */
  datatype BarsRead = BarsRead(content: seq<nat>, lines: seq<BarLine>, wordCount: nat, next: nat, more: bool)

  /**
   * read_bars over the block scan s with count c: the content words (each
   * may fault, in order), then how the scan stopped (EOF ends the tape
   * normally), then the checksum word and a peek for another voice.
   */
  function BarsVerdict(tape: seq<Frame>, s: Scan, c: nat, wc: nat, buffer: seq<nat>, limit: nat): (r: Result<BarsRead>)
    requires BlockScanOf(s, c) && s.next <= |tape|
    ensures r.Ok? ==> var b := r.value;
      && |b.lines| == |b.content| && s.next <= b.next <= |tape| && b.wordCount >= wc
      && (b.more ==> b.next == s.next && Next(tape, b.next).Assembled?)
  {
    var content := Content(s, c);
    var bad := FirstFault(BarFaults(content, c, buffer, limit));
    var lines := BarLines(content, buffer, limit);
    if bad.Some? then Err(bad.value)
    else if s.stop.StoppedAtInner? then Err(InnerBlank(s.stop.frames, wc + |s.words|))
    else if s.stop.StoppedAtEof? then Ok(BarsRead(content, lines, wc + |s.words|, |tape|, false))
    else if s.words[c + 1] != Checksum(content) then Err(ChecksumMismatch(s.words[c + 1], Checksum(content)))
    else Ok(BarsRead(content, lines, wc + c + 2, s.next, Next(tape, s.next).Assembled?))
  }

  /**
   * read_bars from tape position pos: the count word must follow a gap;
   * EOF anywhere in the block, or no word after it, ends the tape normally.
   */
  function ReadBarsSpec(tape: seq<Frame>, pos: nat, wc: nat, buffer: seq<nat>, limit: nat): (r: Result<BarsRead>)
    requires pos <= |tape|
    ensures r.Ok? ==> var b := r.value;
      && |b.lines| == |b.content| && pos <= b.next <= |tape| && b.wordCount >= wc
      && (b.more ==> Next(tape, b.next).Assembled?)
  {
    var head := ReadWords(tape, pos, 1);
    if head.stop.StoppedAtInner? then Err(InnerBlank(head.stop.frames, wc))
    else if head.stop.StoppedAtEof? then Ok(BarsRead([], [], wc, |tape|, false))
    else if head.gaps[0] == 0 then Err(NoGapBeforeBars)
    else
      BlockScanFrom(tape, pos);
      BarsVerdict(tape, ReadWords(tape, pos, head.words[0] + 2), head.words[0], wc, buffer, limit)
  }

  /** One voice of the listing: its Notes content and its Bars content with their rendering. */
  datatype DecodedVoice = DecodedVoice(notes: seq<nat>, bars: seq<nat>, lines: seq<BarLine>)

  datatype Decoded = Decoded(voices: seq<DecodedVoice>, wordCount: nat)

  /** The voice loop of main from voice v on, with the notes buffer as the earlier voices left it. */
  function DecodeVoices(tape: seq<Frame>, pos: nat, wc: nat, buffer: seq<nat>, v: nat): (r: Result<Decoded>)
    requires pos <= |tape| && |buffer| == BufferSize && 1 <= v <= 5
    ensures r.Ok? ==> |r.value.voices| <= 5 - v && (v <= 4 ==> |r.value.voices| >= 1)
    ensures r.Ok? ==> r.value.wordCount >= wc
    decreases 5 - v
  {
    if v > 4 then Ok(Decoded([], wc))
    else match ReadNotesSpec(tape, pos, wc)
      case Err(f) => Err(f)
      case Ok(n) =>
        var buffer' := Overwrite(buffer, n.content);
        match ReadBarsSpec(tape, n.next, n.wordCount, buffer', NotesCountOf(n.count))
        case Err(f) => Err(f)
        case Ok(b) =>
          var voice := DecodedVoice(n.content, b.content, b.lines);
          if !b.more then Ok(Decoded([voice], b.wordCount))
          else Prepend(voice, DecodeVoices(tape, b.next, b.wordCount, buffer', v + 1))
  }

  function Prepend(voice: DecodedVoice, r: Result<Decoded>): Result<Decoded>
  {
    if r.Ok? then Ok(Decoded([voice] + r.value.voices, r.value.wordCount)) else r
  }

  function Join(voices: seq<DecodedVoice>, r: Result<Decoded>): Result<Decoded>
  {
    if r.Ok? then Ok(Decoded(voices + r.value.voices, r.value.wordCount)) else r
  }

  /** The buffer as malloc hands it over; its contents are taken to be zeros. */
  function Zeros(): (b: seq<nat>)
    ensures |b| == BufferSize
  {
    seq(BufferSize, _ => 0)
  }

  /** The whole run: main's voice loop from the start of the tape. */
  function DecodeSpec(tape: seq<Frame>): (r: Result<Decoded>)
    ensures r.Ok? ==> 1 <= |r.value.voices| <= 4
  {
    DecodeVoices(tape, 0, 0, Zeros(), 1)
  }

  /** The DATA LENGTH line: word_count * 18 bits, rounded up to whole bytes. */
  function DataLength(wordCount: nat): (bytes: nat)
    ensures 8 * bytes >= 18 * wordCount
    ensures 8 * bytes < 18 * wordCount + 8
  {
    (wordCount * 18 + 7) / 8
  }

  /* ---------------------------------------------------------------------
   * Block scans: what has been read so far, and how a block reader that
   * stops, faults or completes agrees with the declarative readers above.
   * --------------------------------------------------------------------- */

  /** The first read_next_word of read_notes: a stop there decides the block. */
  lemma NotesStart(tape: seq<Frame>, pos: nat, wc: nat)
    requires pos <= |tape|
    ensures var st := StepOf(Next(tape, pos));
      && (st.InnerFrames? ==> ReadNotesSpec(tape, pos, wc) == Err(InnerBlank(st.frames, wc)))
      && (st.Ended? ==> ReadNotesSpec(tape, pos, wc) == Err(EofInNotes))
      && (st.Got? ==> ReadSoFar(tape, pos, [st.word], After(tape, Next(tape, pos))))
  {
    ReadStep(tape, pos, [], pos);
  }

  /** The first read_next_word of read_bars: a stop there, or a missing gap, decides the block. */
  lemma BarsStart(tape: seq<Frame>, pos: nat, wc: nat, buffer: seq<nat>, limit: nat)
    requires pos <= |tape|
    ensures var st := StepOf(Next(tape, pos));
      && (st.InnerFrames? ==> ReadBarsSpec(tape, pos, wc, buffer, limit) == Err(InnerBlank(st.frames, wc)))
      && (st.Ended? ==> ReadBarsSpec(tape, pos, wc, buffer, limit) == Ok(BarsRead([], [], wc, |tape|, false)))
      && (st.Got? && st.gap == 0 ==> ReadBarsSpec(tape, pos, wc, buffer, limit) == Err(NoGapBeforeBars))
      && (st.Got? ==> ReadSoFar(tape, pos, [st.word], After(tape, Next(tape, pos))))
      && (st.Got? ==> ReadWords(tape, pos, 1).gaps[0] == st.gap)
  {
    ReadStep(tape, pos, [], pos);
  }

  /** Once the count word c was read, read_notes is decided by the block scan of c + 2 words. */
  lemma NotesHead(tape: seq<Frame>, pos: nat, wc: nat, c: nat)
    requires pos <= |tape|
    requires ReadWords(tape, pos, 1).stop.Complete? && ReadWords(tape, pos, 1).words[0] == c
    ensures BlockScanOf(ReadWords(tape, pos, c + 2), c)
    ensures ReadNotesSpec(tape, pos, wc) == NotesVerdict(ReadWords(tape, pos, c + 2), c, wc)
  {
    BlockScanFrom(tape, pos);
  }

  /** Once the count word c was read after a gap, read_bars is decided by the block scan of c + 2 words. */
  lemma BarsHead(tape: seq<Frame>, pos: nat, wc: nat, buffer: seq<nat>, limit: nat, c: nat)
    requires pos <= |tape|
    requires ReadWords(tape, pos, 1).stop.Complete? && ReadWords(tape, pos, 1).words[0] == c
    requires ReadWords(tape, pos, 1).gaps[0] > 0
    ensures BlockScanOf(ReadWords(tape, pos, c + 2), c) && ReadWords(tape, pos, c + 2).next <= |tape|
    ensures ReadBarsSpec(tape, pos, wc, buffer, limit) == BarsVerdict(tape, ReadWords(tape, pos, c + 2), c, wc, buffer, limit)
  {
    BlockScanFrom(tape, pos);
  }

  lemma NoNoteFaults(content: seq<nat>)
    requires forall k :: 0 <= k < |content| ==> NoteFault(k, content[k]).None?
    ensures FirstFault(NoteFaults(content)).None?
  {
    FirstFaultNone(NoteFaults(content));
  }

  lemma NoBarFaults(content: seq<nat>, c: nat, buffer: seq<nat>, limit: nat)
    requires forall k :: 0 <= k < |content| ==> BarFault(k, c, content[k], buffer, limit).None?
    ensures FirstFault(BarFaults(content, c, buffer, limit)).None?
  {
    FirstFaultNone(BarFaults(content, c, buffer, limit));
  }

  lemma NotesVerdictStopped(s: Scan, c: nat, wc: nat, content: seq<nat>)
    requires BlockScanOf(s, c) && !s.stop.Complete? && s.words == [c] + content && Content(s, c) == content
    requires forall k :: 0 <= k < |content| ==> NoteFault(k, content[k]).None?
    ensures NotesVerdict(s, c, wc) ==
      if s.stop.StoppedAtInner? then Err(InnerBlank(s.stop.frames, wc + |content| + 1)) else Err(EofInNotes)
  {
    NoNoteFaults(content);
  }

  lemma BarsVerdictStopped(tape: seq<Frame>, s: Scan, c: nat, wc: nat, buffer: seq<nat>, limit: nat, content: seq<nat>)
    requires BlockScanOf(s, c) && s.next <= |tape|
    requires !s.stop.Complete? && s.words == [c] + content && Content(s, c) == content
    requires forall k :: 0 <= k < |content| ==> BarFault(k, c, content[k], buffer, limit).None?
    ensures BarsVerdict(tape, s, c, wc, buffer, limit) ==
      if s.stop.StoppedAtInner? then Err(InnerBlank(s.stop.frames, wc + |content| + 1))
      else Ok(BarsRead(content, BarLines(content, buffer, limit), wc + |content| + 1, |tape|, false))
  {
    NoBarFaults(content, c, buffer, limit);
  }

  lemma NotesStoppedScan(tape: seq<Frame>, pos: nat, wc: nat, c: nat, content: seq<nat>)
    requires pos <= |tape| && |content| <= c && AllWords(content)
    requires var a := ReadWords(tape, pos, |content| + 2); !a.stop.Complete? && a.words == [c] + content
    requires forall k :: 0 <= k < |content| ==> NoteFault(k, content[k]).None?
    ensures var st := ReadWords(tape, pos, |content| + 2).stop;
      ReadNotesSpec(tape, pos, wc) ==
        if st.StoppedAtInner? then Err(InnerBlank(st.frames, wc + |content| + 1)) else Err(EofInNotes)
  {
    BlockStopped(tape, pos, c, content);
    NotesHead(tape, pos, wc, c);
    NotesVerdictStopped(ReadWords(tape, pos, c + 2), c, wc, content);
  }

  /** A stop inside the Notes block, after the count c and the words `content`. */
  lemma NotesStopped(tape: seq<Frame>, pos: nat, wc: nat, c: nat, content: seq<nat>, at: nat, step: Step)
    requires ReadSoFar(tape, pos, [c] + content, at) && |content| <= c && AllWords(content)
    requires forall k :: 0 <= k < |content| ==> NoteFault(k, content[k]).None?
    requires at <= |tape| && step == StepOf(Next(tape, at)) && !step.Got?
    ensures ReadNotesSpec(tape, pos, wc) ==
      if step.InnerFrames? then Err(InnerBlank(step.frames, wc + |content| + 1)) else Err(EofInNotes)
  {
    ReadStep(tape, pos, [c] + content, at);
    assert |[c] + content| + 1 == |content| + 2;
    NotesStoppedScan(tape, pos, wc, c, content);
  }

  /** A stop inside the Bars block, after the count c and the words `content`. */
  lemma BarsStopped(tape: seq<Frame>, pos: nat, wc: nat, buffer: seq<nat>, limit: nat,
                    c: nat, content: seq<nat>, at: nat, step: Step)
    requires ReadSoFar(tape, pos, [c] + content, at) && |content| <= c
    requires ReadWords(tape, pos, 1).stop.Complete? && ReadWords(tape, pos, 1).gaps[0] > 0
    requires forall k :: 0 <= k < |content| ==> BarFault(k, c, content[k], buffer, limit).None?
    requires at <= |tape| && step == StepOf(Next(tape, at)) && !step.Got?
    ensures ReadBarsSpec(tape, pos, wc, buffer, limit) ==
      if step.InnerFrames? then Err(InnerBlank(step.frames, wc + |content| + 1))
      else Ok(BarsRead(content, BarLines(content, buffer, limit), wc + |content| + 1, |tape|, false))
  {
    ReadStep(tape, pos, [c] + content, at);
    assert |[c] + content| + 1 == |content| + 2;
    BarsStoppedScan(tape, pos, wc, buffer, limit, c, content);
  }

  /** The checksum word read after all c content words of a Notes block. */
  lemma NotesComplete(tape: seq<Frame>, pos: nat, wc: nat, c: nat, content: seq<nat>, at: nat, step: Step)
    requires ReadSoFar(tape, pos, [c] + content, at) && |content| == c
    requires forall k :: 0 <= k < |content| ==> NoteFault(k, content[k]).None?
    requires at <= |tape| && step == StepOf(Next(tape, at)) && step.Got?
    ensures AllWords(content)
    ensures ReadNotesSpec(tape, pos, wc) ==
      if step.word != Checksum(content) then Err(ChecksumMismatch(step.word, Checksum(content)))
      else Ok(NotesRead(c, content, After(tape, Next(tape, at)), wc + c + 2))
  {
    ScanNext(tape, pos, c, content, at);
    NotesCompleteScan(tape, pos, wc, c, content, step.word, After(tape, Next(tape, at)));
  }

  /** The checksum word read after all c content words of a Bars block. */
  lemma BarsComplete(tape: seq<Frame>, pos: nat, wc: nat, buffer: seq<nat>, limit: nat,
                     c: nat, content: seq<nat>, at: nat, step: Step)
    requires ReadSoFar(tape, pos, [c] + content, at) && |content| == c
    requires ReadWords(tape, pos, 1).stop.Complete? && ReadWords(tape, pos, 1).gaps[0] > 0
    requires forall k :: 0 <= k < |content| ==> BarFault(k, c, content[k], buffer, limit).None?
    requires at <= |tape| && step == StepOf(Next(tape, at)) && step.Got?
    ensures After(tape, Next(tape, at)) <= |tape| && AllWords(content)
    ensures var next := After(tape, Next(tape, at));
      ReadBarsSpec(tape, pos, wc, buffer, limit) ==
        if step.word != Checksum(content) then Err(ChecksumMismatch(step.word, Checksum(content)))
        else Ok(BarsRead(content, BarLines(content, buffer, limit), wc + c + 2, next, Next(tape, next).Assembled?))
  {
    ScanNext(tape, pos, c, content, at);
    BarsCompleteScan(tape, pos, wc, buffer, limit, c, content, step.word, After(tape, Next(tape, at)));
  }

  /** A check that fails at content word k, after k that pass, decides the run of checks. */
  lemma FaultAt(fs: seq<Option<Fault>>, k: nat, f: Option<Fault>)
    requires k < |fs| && fs[k] == f && f.Some?
    requires forall j :: 0 <= j < k ==> fs[j].None?
    ensures FirstFault(fs) == f
  {
    FirstFaultAt(fs, k);
  }

  lemma NotesVerdictFault(s: Scan, c: nat, wc: nat, content: seq<nat>, w: nat)
    requires BlockScanOf(s, c) && |content| < c
    requires |Content(s, c)| > |content| && Content(s, c)[..|content| + 1] == content + [w]
    requires forall k :: 0 <= k < |content| ==> NoteFault(k, content[k]).None?
    requires NoteFault(|content|, w).Some?
    ensures NotesVerdict(s, c, wc) == Err(NoteFault(|content|, w).value)
  {
    var fs := NoteFaults(Content(s, c));
    var k := |content|;
    assert fs[k] == NoteFault(k, w) by {
      assert Content(s, c)[k] == (content + [w])[k];
    }
    forall j | 0 <= j < k ensures fs[j].None? {
      assert Content(s, c)[j] == (content + [w])[j];
    }
    FaultAt(fs, k, NoteFault(k, w));
  }

  lemma BarsVerdictFault(tape: seq<Frame>, s: Scan, c: nat, wc: nat, buffer: seq<nat>, limit: nat, content: seq<nat>, w: nat)
    requires BlockScanOf(s, c) && s.next <= |tape| && |content| < c
    requires |Content(s, c)| > |content| && Content(s, c)[..|content| + 1] == content + [w]
    requires forall k :: 0 <= k < |content| ==> BarFault(k, c, content[k], buffer, limit).None?
    requires BarFault(|content|, c, w, buffer, limit).Some?
    ensures BarsVerdict(tape, s, c, wc, buffer, limit) == Err(BarFault(|content|, c, w, buffer, limit).value)
  {
    var fs := BarFaults(Content(s, c), c, buffer, limit);
    var k := |content|;
    assert fs[k] == BarFault(k, c, w, buffer, limit) by {
      assert Content(s, c)[k] == (content + [w])[k];
    }
    forall j | 0 <= j < k ensures fs[j].None? {
      assert Content(s, c)[j] == (content + [w])[j];
    }
    FaultAt(fs, k, BarFault(k, c, w, buffer, limit));
  }

  lemma NotesFault(tape: seq<Frame>, pos: nat, wc: nat, c: nat, content: seq<nat>, w: nat, next: nat)
    requires ReadSoFar(tape, pos, [c] + (content + [w]), next) && |content| < c
    requires forall k :: 0 <= k < |content| ==> NoteFault(k, content[k]).None?
    requires NoteFault(|content|, w).Some?
    ensures ReadNotesSpec(tape, pos, wc) == Err(NoteFault(|content|, w).value)
  {
    assert [c] + (content + [w]) == [c] + content + [w];
    BlockPrefix(tape, pos, c, content, w, next);
    NotesHead(tape, pos, wc, c);
    NotesVerdictFault(ReadWords(tape, pos, c + 2), c, wc, content, w);
  }

  lemma NotesVerdictComplete(s: Scan, c: nat, wc: nat, content: seq<nat>, x: nat)
    requires BlockScanOf(s, c) && s.stop.Complete? && s.words[c + 1] == x && Content(s, c) == content
    requires forall k :: 0 <= k < |content| ==> NoteFault(k, content[k]).None?
    ensures NotesVerdict(s, c, wc) ==
      if x != Checksum(content) then Err(ChecksumMismatch(x, Checksum(content)))
      else Ok(NotesRead(c, content, s.next, wc + c + 2))
  {
    NoNoteFaults(content);
  }

  lemma BarsVerdictComplete(tape: seq<Frame>, s: Scan, c: nat, wc: nat, buffer: seq<nat>, limit: nat, content: seq<nat>, x: nat)
    requires BlockScanOf(s, c) && s.next <= |tape|
    requires s.stop.Complete? && s.words[c + 1] == x && Content(s, c) == content
    requires forall k :: 0 <= k < |content| ==> BarFault(k, c, content[k], buffer, limit).None?
    ensures BarsVerdict(tape, s, c, wc, buffer, limit) ==
      if x != Checksum(content) then Err(ChecksumMismatch(x, Checksum(content)))
      else Ok(BarsRead(content, BarLines(content, buffer, limit), wc + c + 2, s.next, Next(tape, s.next).Assembled?))
  {
    NoBarFaults(content, c, buffer, limit);
  }

  lemma NotesCompleteScan(tape: seq<Frame>, pos: nat, wc: nat, c: nat, content: seq<nat>, x: nat, next: nat)
    requires ReadSoFar(tape, pos, [c] + (content + [x]), next) && |content| == c
    requires forall k :: 0 <= k < |content| ==> NoteFault(k, content[k]).None?
    ensures AllWords(content)
    ensures ReadNotesSpec(tape, pos, wc) ==
      if x != Checksum(content) then Err(ChecksumMismatch(x, Checksum(content)))
      else Ok(NotesRead(c, content, next, wc + c + 2))
  {
    assert [c] + (content + [x]) == [c] + content + [x];
    BlockComplete(tape, pos, c, content, x, next);
    NotesHead(tape, pos, wc, c);
    NotesVerdictComplete(ReadWords(tape, pos, c + 2), c, wc, content, x);
  }

  lemma BarsStoppedScan(tape: seq<Frame>, pos: nat, wc: nat, buffer: seq<nat>, limit: nat, c: nat, content: seq<nat>)
    requires pos <= |tape| && |content| <= c
    requires var a := ReadWords(tape, pos, |content| + 2); !a.stop.Complete? && a.words == [c] + content
    requires ReadWords(tape, pos, 1).stop.Complete? && ReadWords(tape, pos, 1).gaps[0] > 0
    requires forall k :: 0 <= k < |content| ==> BarFault(k, c, content[k], buffer, limit).None?
    ensures var st := ReadWords(tape, pos, |content| + 2).stop;
      ReadBarsSpec(tape, pos, wc, buffer, limit) ==
        if st.StoppedAtInner? then Err(InnerBlank(st.frames, wc + |content| + 1))
        else Ok(BarsRead(content, BarLines(content, buffer, limit), wc + |content| + 1, |tape|, false))
  {
    BlockStopped(tape, pos, c, content);
    BarsHead(tape, pos, wc, buffer, limit, c);
    BarsVerdictStopped(tape, ReadWords(tape, pos, c + 2), c, wc, buffer, limit, content);
  }

  lemma BarsFault(tape: seq<Frame>, pos: nat, wc: nat, buffer: seq<nat>, limit: nat,
                  c: nat, content: seq<nat>, w: nat, next: nat)
    requires ReadSoFar(tape, pos, [c] + (content + [w]), next) && |content| < c
    requires ReadWords(tape, pos, 1).stop.Complete? && ReadWords(tape, pos, 1).gaps[0] > 0
    requires forall k :: 0 <= k < |content| ==> BarFault(k, c, content[k], buffer, limit).None?
    requires BarFault(|content|, c, w, buffer, limit).Some?
    ensures ReadBarsSpec(tape, pos, wc, buffer, limit) == Err(BarFault(|content|, c, w, buffer, limit).value)
  {
    assert [c] + (content + [w]) == [c] + content + [w];
    BlockPrefix(tape, pos, c, content, w, next);
    BarsHead(tape, pos, wc, buffer, limit, c);
    BarsVerdictFault(tape, ReadWords(tape, pos, c + 2), c, wc, buffer, limit, content, w);
  }

  lemma BarsCompleteScan(tape: seq<Frame>, pos: nat, wc: nat, buffer: seq<nat>, limit: nat,
                     c: nat, content: seq<nat>, x: nat, next: nat)
    requires ReadSoFar(tape, pos, [c] + (content + [x]), next) && |content| == c
    requires ReadWords(tape, pos, 1).stop.Complete? && ReadWords(tape, pos, 1).gaps[0] > 0
    requires forall k :: 0 <= k < |content| ==> BarFault(k, c, content[k], buffer, limit).None?
    ensures next <= |tape| && AllWords(content)
    ensures ReadBarsSpec(tape, pos, wc, buffer, limit) ==
      if x != Checksum(content) then Err(ChecksumMismatch(x, Checksum(content)))
      else Ok(BarsRead(content, BarLines(content, buffer, limit), wc + c + 2, next, Next(tape, next).Assembled?))
  {
    assert [c] + (content + [x]) == [c] + content + [x];
    BlockComplete(tape, pos, c, content, x, next);
    BarsHead(tape, pos, wc, buffer, limit, c);
    BarsVerdictComplete(tape, ReadWords(tape, pos, c + 2), c, wc, buffer, limit, content, x);
  }

  lemma OverwriteSnoc(buffer: seq<nat>, content: seq<nat>, w: nat)
    requires |content| < |buffer|
    ensures Overwrite(buffer, content)[|content| := w] == Overwrite(buffer, content + [w])
  {
  }

  lemma BarLinesSnoc(content: seq<nat>, w: nat, buffer: seq<nat>, limit: nat)
    ensures BarLines(content + [w], buffer, limit) == BarLines(content, buffer, limit) + [BarLineOf(|content|, w, buffer, limit)]
  {
    var a, b := BarLines(content + [w], buffer, limit), BarLines(content, buffer, limit) + [BarLineOf(|content|, w, buffer, limit)];
    forall k | 0 <= k < |a| ensures a[k] == b[k] {
      assert (content + [w])[k] == if k < |content| then content[k] else w;
    }
  }

  /* ---------------------------------------------------------------------
   * The imperative readers.
   * --------------------------------------------------------------------- */

  /**
   * One pass of the content loop of read_notes: read content word number
   * |content| and check it. `done` is the result of read_notes when this
   * word ends the block.
   */
  method NextNoteWord(reader: Reader, wc: nat, c: nat, content: seq<nat>, ghost pos0: nat, count: nat)
      returns (done: Option<Result<NotesRead>>, w: nat, count': nat)
    requires reader.Valid() && ReadSoFar(reader.tape, pos0, [c] + content, reader.pos)
    requires |content| < c && AllWords(content) && count == wc + |content| + 1
    requires forall k :: 0 <= k < |content| ==> NoteFault(k, content[k]).None?
    modifies reader
    ensures reader.Valid()
    ensures done.Some? ==> done.value.Err? && done.value == ReadNotesSpec(reader.tape, pos0, wc)
    ensures done.None? ==>
      && IsWord(w) && NoteFault(|content|, w).None? && count' == count + 1
      && ReadSoFar(reader.tape, pos0, [c] + (content + [w]), reader.pos)
  {
    ghost var tape, at := reader.tape, reader.pos;
    w := 0;
    var step;
    step, count' := reader.ReadNextWord(count);
    if step.InnerFrames? {
      done := Some(Err(InnerBlank(step.frames, count')));
      assert done.value == ReadNotesSpec(tape, pos0, wc) by { NotesStopped(tape, pos0, wc, c, content, at, step); }
      return;
    } else if step.Ended? {
      done := Some(Err(EofInNotes));
      assert done.value == ReadNotesSpec(tape, pos0, wc) by { NotesStopped(tape, pos0, wc, c, content, at, step); }
      return;
    }
    w := step.word;
    assert ReadSoFar(tape, pos0, [c] + (content + [w]), reader.pos) by { ScanNext(tape, pos0, c, content, at); }
    assert IsWord(w) by {
      assert ReadWords(tape, pos0, |content| + 2).words[|content| + 1] == w;
    }
    var fault := NoteFault(|content|, w);
    if fault.Some? {
      done := Some(Err(fault.value));
      assert done.value == ReadNotesSpec(tape, pos0, wc) by { NotesFault(tape, pos0, wc, c, content, w, reader.pos); }
      return;
    }
    done := None;
  }

  /**
   * The content loop of read_notes: content word i is read, checked and
   * stored in notes[i], and folded into the checksum. `done` is the result
   * of read_notes when the loop cannot finish the block.
   */
  method ReadNoteWords(reader: Reader, notes: array<nat>, wc: nat, c: nat, ghost pos0: nat, count0: nat)
      returns (done: Option<Result<NotesRead>>, content: seq<nat>, checksum: nat, count: nat)
    requires reader.Valid() && notes.Length == BufferSize
    requires ReadSoFar(reader.tape, pos0, [c], reader.pos) && count0 == wc + 1
    modifies reader, notes
    ensures reader.Valid()
    ensures done.Some? ==> done.value.Err? && done.value == ReadNotesSpec(reader.tape, pos0, wc)
    ensures done.None? ==>
      && |content| == c && AllWords(content) && ReadSoFar(reader.tape, pos0, [c] + content, reader.pos)
      && count == wc + c + 1 && checksum == Checksum(content)
      && (forall k :: 0 <= k < |content| ==> NoteFault(k, content[k]).None?)
      && notes[..] == Overwrite(old(notes[..]), content)
  {
    ghost var tape, buffer0 := reader.tape, notes[..];
    content, checksum, count := [], 0, count0;
    assert [c] + content == [c];
    var i := 0;
    while i < c
      invariant reader.Valid() && reader.tape == tape
      invariant i <= c && |content| == i && AllWords(content) && i <= BufferSize
      invariant ReadSoFar(tape, pos0, [c] + content, reader.pos)
      invariant count == wc + i + 1
      invariant checksum == Checksum(content)
      invariant forall k :: 0 <= k < i ==> NoteFault(k, content[k]).None?
      invariant notes[..] == Overwrite(buffer0, content)
      decreases c - i
    {
      var w;
      done, w, count := NextNoteWord(reader, wc, c, content, pos0, count);
      if done.Some? {
        return;
      }
      assert AllWords(content + [w]) && Checksum(content + [w]) == AddOnes(checksum, w) by { ChecksumSnoc(content, w); }
      checksum := AddOnes(checksum, w);
      assert notes[..][i := w] == Overwrite(buffer0, content + [w]) by { OverwriteSnoc(buffer0, content, w); }
      notes[i] := w;
      content := content + [w];
      i := i + 1;
    }
    done := None;
  }

  /**
   * The end of read_notes, after all c content words: read the checksum
   * word and compare it with the fold of the content.
   */
  method ReadNotesChecksum(reader: Reader, wc: nat, c: nat, content: seq<nat>, checksum: nat, ghost pos0: nat, count: nat)
      returns (r: Result<NotesRead>)
    requires reader.Valid() && ReadSoFar(reader.tape, pos0, [c] + content, reader.pos)
    requires |content| == c && AllWords(content) && count == wc + c + 1 && checksum == Checksum(content)
    requires forall k :: 0 <= k < |content| ==> NoteFault(k, content[k]).None?
    modifies reader
    ensures reader.Valid()
    ensures r == ReadNotesSpec(reader.tape, pos0, wc)
    ensures r.Ok? ==> reader.pos == r.value.next && r.value.content == content
  {
    ghost var tape, at := reader.tape, reader.pos;
    var step, count' := reader.ReadNextWord(count);
    if step.InnerFrames? {
      r := Err(InnerBlank(step.frames, count'));
      assert r == ReadNotesSpec(tape, pos0, wc) by { NotesStopped(tape, pos0, wc, c, content, at, step); }
      return;
    } else if step.Ended? {
      r := Err(EofInNotes);
      assert r == ReadNotesSpec(tape, pos0, wc) by { NotesStopped(tape, pos0, wc, c, content, at, step); }
      return;
    }
    var x := step.word;
    if x != checksum {
      r := Err(ChecksumMismatch(x, checksum));
    } else {
      r := Ok(NotesRead(c, content, reader.pos, count'));
    }
    assert r == ReadNotesSpec(tape, pos0, wc) by { NotesComplete(tape, pos0, wc, c, content, at, step); }
  }

  /**
   * read_notes: count word, content words stored in notes[0..] and folded
   * into the checksum, checksum word compared with the fold.
   */
  method ReadNotes(reader: Reader, notes: array<nat>, wc: nat) returns (r: Result<NotesRead>)
    requires reader.Valid() && notes.Length == BufferSize
    modifies reader, notes
    ensures reader.Valid()
    ensures r == ReadNotesSpec(reader.tape, old(reader.pos), wc)
    ensures r.Ok? ==> reader.pos == r.value.next && notes[..] == Overwrite(old(notes[..]), r.value.content)
  {
    ghost var tape, pos0 := reader.tape, reader.pos;
    var step, count := reader.ReadNextWord(wc);
    if step.InnerFrames? {
      r := Err(InnerBlank(step.frames, wc));
      assert r == ReadNotesSpec(tape, pos0, wc) by { NotesStart(tape, pos0, wc); }
      return;
    } else if step.Ended? {
      r := Err(EofInNotes);
      assert r == ReadNotesSpec(tape, pos0, wc) by { NotesStart(tape, pos0, wc); }
      return;
    }
    var c := step.word;
    assert ReadSoFar(tape, pos0, [c], reader.pos) by { NotesStart(tape, pos0, wc); }
    var done, content, checksum;
    done, content, checksum, count := ReadNoteWords(reader, notes, wc, c, pos0, count);
    if done.Some? {
      return done.value;
    }
    r := ReadNotesChecksum(reader, wc, c, content, checksum, pos0, count);
  }

  /**
   * The rendering loop of one bar: walk notes[] from start while the word
   * is not 0600000 and the index is below limit; the word is read before
   * the index is compared, so a walk past the buffer is an overrun.
   */
  method RenderMeasure(notes: array<nat>, start: nat, limit: nat) returns (r: Option<seq<nat>>)
    ensures r == match MeasureEnd(notes[..], start, limit)
      case Some(e) => Some(notes[start..e])
      case None => None
  {
    var k := start;
    var rendered: seq<nat> := [];
    while k < notes.Length && notes[k] != Separator && k < limit
      invariant start <= k && (start <= notes.Length ==> k <= notes.Length && rendered == notes[start..k])
      invariant MeasureEnd(notes[..], k, limit) == MeasureEnd(notes[..], start, limit)
      decreases notes.Length - k
    {
      rendered := rendered + [notes[k]];
      k := k + 1;
    }
    if k >= notes.Length {
      return None;
    }
    return Some(rendered);
  }

  /**
   * One pass of the content loop of read_bars: read content word number
   * |content|, check it against the notes buffer and render its bar.
   * `done` is the result of read_bars when this word ends the block.
   */
  method NextBarWord(reader: Reader, notes: array<nat>, wc: nat, limit: nat, c: nat,
                     content: seq<nat>, lines: seq<BarLine>, ghost pos0: nat, count: nat)
      returns (done: Option<Result<BarsRead>>, w: nat, line: BarLine, count': nat)
    requires reader.Valid() && ReadSoFar(reader.tape, pos0, [c] + content, reader.pos)
    requires ReadWords(reader.tape, pos0, 1).stop.Complete? && ReadWords(reader.tape, pos0, 1).gaps[0] > 0
    requires |content| < c && AllWords(content) && count == wc + |content| + 1
    requires forall k :: 0 <= k < |content| ==> BarFault(k, c, content[k], notes[..], limit).None?
    requires lines == BarLines(content, notes[..], limit)
    modifies reader
    ensures reader.Valid()
    ensures done.Some? ==> done.value == ReadBarsSpec(reader.tape, pos0, wc, notes[..], limit)
    ensures done.Some? && done.value.Ok? ==> reader.pos == done.value.value.next
    ensures done.None? ==>
      && IsWord(w) && BarFault(|content|, c, w, notes[..], limit).None? && count' == count + 1
      && line == BarLineOf(|content|, w, notes[..], limit)
      && ReadSoFar(reader.tape, pos0, [c] + (content + [w]), reader.pos)
  {
    ghost var tape, at, buffer := reader.tape, reader.pos, notes[..];
    w, line := 0, EndMark;
    var step;
    step, count' := reader.ReadNextWord(count);
    if step.InnerFrames? {
      done := Some(Err(InnerBlank(step.frames, count')));
      assert done.value == ReadBarsSpec(tape, pos0, wc, buffer, limit) by {
        BarsStopped(tape, pos0, wc, buffer, limit, c, content, at, step);
      }
      return;
    } else if step.Ended? {
      done := Some(Ok(BarsRead(content, lines, count', reader.pos, false)));
      assert done.value == ReadBarsSpec(tape, pos0, wc, buffer, limit) by {
        BarsStopped(tape, pos0, wc, buffer, limit, c, content, at, step);
      }
      return;
    }
    w := step.word;
    assert ReadSoFar(tape, pos0, [c] + (content + [w]), reader.pos) by { ScanNext(tape, pos0, c, content, at); }
    assert IsWord(w) by {
      assert ReadWords(tape, pos0, |content| + 2).words[|content| + 1] == w;
    }
    if w == Separator {
      if |content| + 1 != c {
        done := Some(Err(EarlyBarsEnd));
        assert done.value == ReadBarsSpec(tape, pos0, wc, buffer, limit) by {
          BarsFault(tape, pos0, wc, buffer, limit, c, content, w, reader.pos);
        }
        return;
      }
      line := EndMark;
    } else {
      if w >= limit {
        done := Some(Err(IndexOutOfRange(w)));
        assert done.value == ReadBarsSpec(tape, pos0, wc, buffer, limit) by {
          BarsFault(tape, pos0, wc, buffer, limit, c, content, w, reader.pos);
        }
        return;
      }
      var measure := RenderMeasure(notes, w, limit);
      if measure.None? {
        done := Some(Err(BufferOverrun));
        assert done.value == ReadBarsSpec(tape, pos0, wc, buffer, limit) by {
          BarsFault(tape, pos0, wc, buffer, limit, c, content, w, reader.pos);
        }
        return;
      }
      line := Bar(|content| + 1, measure.value);
    }
    done := None;
  }

  /**
   * The content loop of read_bars: content word i is read, checked against
   * the notes buffer and rendered, and folded into the checksum. `done` is
   * the result of read_bars when the loop cannot finish the block.
   */
  method ReadBarWords(reader: Reader, notes: array<nat>, wc: nat, limit: nat, c: nat, ghost pos0: nat, count0: nat)
      returns (done: Option<Result<BarsRead>>, content: seq<nat>, lines: seq<BarLine>, checksum: nat, count: nat)
    requires reader.Valid() && ReadSoFar(reader.tape, pos0, [c], reader.pos) && count0 == wc + 1
    requires ReadWords(reader.tape, pos0, 1).stop.Complete? && ReadWords(reader.tape, pos0, 1).gaps[0] > 0
    modifies reader
    ensures reader.Valid()
    ensures done.Some? ==> done.value == ReadBarsSpec(reader.tape, pos0, wc, notes[..], limit)
    ensures done.Some? && done.value.Ok? ==> reader.pos == done.value.value.next
    ensures done.None? ==>
      && |content| == c && AllWords(content) && ReadSoFar(reader.tape, pos0, [c] + content, reader.pos)
      && count == wc + c + 1 && checksum == Checksum(content)
      && (forall k :: 0 <= k < |content| ==> BarFault(k, c, content[k], notes[..], limit).None?)
      && lines == BarLines(content, notes[..], limit)
  {
    ghost var tape, buffer := reader.tape, notes[..];
    content, lines, checksum, count := [], [], 0, count0;
    assert [c] + content == [c];
    var i := 0;
    while i < c
      invariant reader.Valid() && reader.tape == tape
      invariant i <= c && |content| == i && AllWords(content)
      invariant ReadSoFar(tape, pos0, [c] + content, reader.pos)
      invariant count == wc + i + 1
      invariant checksum == Checksum(content)
      invariant forall k :: 0 <= k < i ==> BarFault(k, c, content[k], buffer, limit).None?
      invariant lines == BarLines(content, buffer, limit)
      decreases c - i
    {
      var w, line;
      done, w, line, count := NextBarWord(reader, notes, wc, limit, c, content, lines, pos0, count);
      if done.Some? {
        return;
      }
      assert AllWords(content + [w]) && Checksum(content + [w]) == AddOnes(checksum, w) by { ChecksumSnoc(content, w); }
      checksum := AddOnes(checksum, w);
      assert lines + [line] == BarLines(content + [w], buffer, limit) by { BarLinesSnoc(content, w, buffer, limit); }
      content := content + [w];
      lines := lines + [line];
      i := i + 1;
    }
    done := None;
  }

  /**
   * The end of read_bars, after all c content words: read the checksum
   * word, compare it with the fold of the content, and peek for another
   * voice.
   */
  method ReadBarsChecksum(reader: Reader, notes: array<nat>, wc: nat, limit: nat, c: nat,
                          content: seq<nat>, lines: seq<BarLine>, checksum: nat, ghost pos0: nat, count: nat)
      returns (r: Result<BarsRead>)
    requires reader.Valid() && ReadSoFar(reader.tape, pos0, [c] + content, reader.pos)
    requires ReadWords(reader.tape, pos0, 1).stop.Complete? && ReadWords(reader.tape, pos0, 1).gaps[0] > 0
    requires |content| == c && AllWords(content) && count == wc + c + 1 && checksum == Checksum(content)
    requires forall k :: 0 <= k < |content| ==> BarFault(k, c, content[k], notes[..], limit).None?
    requires lines == BarLines(content, notes[..], limit)
    modifies reader
    ensures reader.Valid()
    ensures r == ReadBarsSpec(reader.tape, pos0, wc, notes[..], limit)
    ensures r.Ok? ==> reader.pos == r.value.next
  {
    ghost var tape, at, buffer := reader.tape, reader.pos, notes[..];
    var step, count' := reader.ReadNextWord(count);
    if step.InnerFrames? {
      r := Err(InnerBlank(step.frames, count'));
      assert r == ReadBarsSpec(tape, pos0, wc, buffer, limit) by {
        BarsStopped(tape, pos0, wc, buffer, limit, c, content, at, step);
      }
      return;
    } else if step.Ended? {
      r := Ok(BarsRead(content, lines, count', reader.pos, false));
      assert r == ReadBarsSpec(tape, pos0, wc, buffer, limit) by {
        BarsStopped(tape, pos0, wc, buffer, limit, c, content, at, step);
      }
      return;
    }
    var x := step.word;
    if x != checksum {
      r := Err(ChecksumMismatch(x, checksum));
      assert r == ReadBarsSpec(tape, pos0, wc, buffer, limit) by {
        BarsComplete(tape, pos0, wc, buffer, limit, c, content, at, step);
      }
      return;
    }
    var more, _ := reader.PeekGap();
    r := Ok(BarsRead(content, lines, count', reader.pos, more));
    assert r == ReadBarsSpec(tape, pos0, wc, buffer, limit) by {
      BarsComplete(tape, pos0, wc, buffer, limit, c, content, at, step);
    }
  }

  /**
   * read_bars: count word (after a gap), content words checked against the
   * buffer and rendered, checksum word, then a peek for another voice.
   */
  method ReadBars(reader: Reader, notes: array<nat>, wc: nat, limit: nat) returns (r: Result<BarsRead>)
    requires reader.Valid()
    modifies reader
    ensures reader.Valid()
    ensures r == ReadBarsSpec(reader.tape, old(reader.pos), wc, notes[..], limit)
    ensures r.Ok? ==> reader.pos == r.value.next
  {
    ghost var tape, pos0, buffer := reader.tape, reader.pos, notes[..];
    var step, count := reader.ReadNextWord(wc);
    if step.InnerFrames? {
      r := Err(InnerBlank(step.frames, wc));
      assert r == ReadBarsSpec(tape, pos0, wc, buffer, limit) by { BarsStart(tape, pos0, wc, buffer, limit); }
      return;
    } else if step.Ended? {
      r := Ok(BarsRead([], [], wc, reader.pos, false));
      assert r == ReadBarsSpec(tape, pos0, wc, buffer, limit) by { BarsStart(tape, pos0, wc, buffer, limit); }
      return;
    } else if step.gap == 0 {
      r := Err(NoGapBeforeBars);
      assert r == ReadBarsSpec(tape, pos0, wc, buffer, limit) by { BarsStart(tape, pos0, wc, buffer, limit); }
      return;
    }
    var c := step.word;
    assert ReadSoFar(tape, pos0, [c], reader.pos) && ReadWords(tape, pos0, 1).gaps[0] > 0 by {
      BarsStart(tape, pos0, wc, buffer, limit);
    }
    var done, content, lines, checksum;
    done, content, lines, checksum, count := ReadBarWords(reader, notes, wc, limit, c, pos0, count);
    if done.Some? {
      return done.value;
    }
    r := ReadBarsChecksum(reader, notes, wc, limit, c, content, lines, checksum, pos0, count);
  }

  /** One voice of main's loop whose Notes and Bars blocks were both good. */
  lemma VoiceStep(tape: seq<Frame>, pos: nat, wc: nat, buffer: seq<nat>, v: nat, n: NotesRead, b: BarsRead)
    requires pos <= |tape| && |buffer| == BufferSize && 1 <= v <= 4
    requires ReadNotesSpec(tape, pos, wc) == Ok(n)
    requires ReadBarsSpec(tape, n.next, n.wordCount, Overwrite(buffer, n.content), NotesCountOf(n.count)) == Ok(b)
    ensures b.next <= |tape|
    ensures var voice := DecodedVoice(n.content, b.content, b.lines);
      DecodeVoices(tape, pos, wc, buffer, v) ==
        if !b.more then Ok(Decoded([voice], b.wordCount))
        else Prepend(voice, DecodeVoices(tape, b.next, b.wordCount, Overwrite(buffer, n.content), v + 1))
  {
  }

  lemma JoinPrepend(voices: seq<DecodedVoice>, voice: DecodedVoice, r: Result<Decoded>)
    ensures Join(voices, Prepend(voice, r)) == Join(voices + [voice], r)
  {
    if r.Ok? {
      assert voices + ([voice] + r.value.voices) == voices + [voice] + r.value.voices;
    }
  }

  /** main: the voice loop over one notes buffer, at most four voices. */
  method Decode(tape: seq<Frame>) returns (r: Result<Decoded>)
    ensures r == DecodeSpec(tape)
  {
    var reader := new Reader(tape);
    var notes := new nat[BufferSize](_ => 0);
    assert notes[..] == Zeros();
    ghost var d := DecodeSpec(tape);
    if d.Ok? {
      assert [] + d.value.voices == d.value.voices;
    }
    var wc := 0;
    var voice := 1;
    var voices: seq<DecodedVoice> := [];
    while voice <= 4
      invariant reader.Valid() && reader.tape == tape && 1 <= voice <= 5 && notes.Length == BufferSize
      invariant Join(voices, DecodeVoices(tape, reader.pos, wc, notes[..], voice)) == DecodeSpec(tape)
      decreases 5 - voice
    {
      ghost var pos, buffer := reader.pos, notes[..];
      var n := ReadNotes(reader, notes, wc);
      if n.Err? {
        return Err(n.fault);
      }
      var b := ReadBars(reader, notes, n.value.wordCount, NotesCountOf(n.value.count));
      if b.Err? {
        return Err(b.fault);
      }
      var v := DecodedVoice(n.value.content, b.value.content, b.value.lines);
      VoiceStep(tape, pos, wc, buffer, voice, n.value, b.value);
      JoinPrepend(voices, v, DecodeVoices(tape, b.value.next, b.value.wordCount, notes[..], voice + 1));
      voices := voices + [v];
      wc := b.value.wordCount;
      if !b.value.more {
        return Ok(Decoded(voices, wc));
      }
      voice := voice + 1;
    }
    assert voices + [] == voices;
    r := Ok(Decoded(voices, wc));
  }
}
