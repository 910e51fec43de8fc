/**
 * Reading a block: a count word c, then c content words, then a checksum
 * word, each read by read_next_word. Both drivers read blocks this way;
 * the lemmas here tie a reader that has gone word by word to the scan of
 * the whole block (ReadWords).
 */
module Blocks {
  import opened Word18
  import opened Tape

  function Min(a: nat, b: nat): nat { if a < b then a else b }

  /** The content words of a block scan whose first word is the count c. */
  function Content(s: Scan, c: nat): (content: seq<nat>)
    requires |s.words| >= 1 && AllWords(s.words)
    ensures AllWords(content) && |content| <= c
  {
    s.words[1..Min(|s.words|, c + 1)]
  }

  /** A block scan: the count c first, then at most c + 1 more words; complete when all c + 2 were read. */
  predicate BlockScanOf(s: Scan, c: nat)
  {
    && 1 <= |s.words| <= c + 2 && AllWords(s.words) && s.words[0] == c
    && (s.stop.Complete? <==> |s.words| == c + 2)
  }

  /** The scan of a block whose count word was read: c + 2 words from pos. */
  lemma BlockScanFrom(tape: seq<Frame>, pos: nat)
    requires pos <= |tape| && ReadWords(tape, pos, 1).stop.Complete?
    ensures var c := ReadWords(tape, pos, 1).words[0]; BlockScanOf(ReadWords(tape, pos, c + 2), c)
  {
    var c := ReadWords(tape, pos, 1).words[0];
    ReadWordsPrefix(tape, pos, 1, c + 2);
  }

  /** The first |words| words from pos were read without a stop, ending at next. */
  predicate ReadSoFar(tape: seq<Frame>, pos: nat, words: seq<nat>, next: nat)
  {
    && pos <= |tape|
    && ReadWords(tape, pos, |words|).stop.Complete?
    && ReadWords(tape, pos, |words|).words == words
    && ReadWords(tape, pos, |words|).next == next
  }

  /** One call of read_next_word after a run of words read without a stop. */
  lemma ReadStep(tape: seq<Frame>, pos: nat, words: seq<nat>, next: nat)
    requires ReadSoFar(tape, pos, words, next)
    ensures next <= |tape|
    ensures var a, r := ReadWords(tape, pos, |words| + 1), Next(tape, next);
      var st := StepOf(r);
      && (st.Got? ==> ReadSoFar(tape, pos, words + [st.word], After(tape, r)) && a.gaps[|words|] == st.gap)
      && (st.InnerFrames? ==> a.words == words && a.stop == StoppedAtInner(st.frames))
      && (st.Ended? ==> a.words == words && a.stop.StoppedAtEof?)
  {
  }

  /** The count word of a block is the first word of any longer scan. */
  lemma HeadOf(tape: seq<Frame>, pos: nat, n: nat)
    requires pos <= |tape| && n >= 1 && |ReadWords(tape, pos, n).words| >= 1
    ensures ReadWords(tape, pos, 1).stop.Complete?
    ensures ReadWords(tape, pos, 1).words == [ReadWords(tape, pos, n).words[0]]
    ensures ReadWords(tape, pos, 1).gaps == [ReadWords(tape, pos, n).gaps[0]]
  {
    ReadWordsPrefix(tape, pos, 1, n);
  }

  /** A scan that stopped after the count c and the words `content`: the whole block scan is that scan. */
  lemma ContentStopped(tape: seq<Frame>, pos: nat, c: nat, content: seq<nat>)
    requires pos <= |tape| && |content| <= c
    requires var a := ReadWords(tape, pos, |content| + 2); !a.stop.Complete? && a.words == [c] + content
    ensures ReadWords(tape, pos, c + 2) == ReadWords(tape, pos, |content| + 2)
    ensures Content(ReadWords(tape, pos, |content| + 2), c) == content
  {
    ReadWordsPrefix(tape, pos, |content| + 2, c + 2);
  }

  /** The block stopped after the count c and the content words `content`. */
  lemma BlockStopped(tape: seq<Frame>, pos: nat, c: nat, content: seq<nat>)
    requires pos <= |tape| && |content| <= c
    requires var a := ReadWords(tape, pos, |content| + 2); !a.stop.Complete? && a.words == [c] + content
    ensures ReadWords(tape, pos, 1).stop.Complete? && ReadWords(tape, pos, 1).words == [c]
    ensures ReadWords(tape, pos, c + 2) == ReadWords(tape, pos, |content| + 2)
    ensures Content(ReadWords(tape, pos, c + 2), c) == content
  {
    ContentStopped(tape, pos, c, content);
    HeadOf(tape, pos, |content| + 2);
  }

  /** The content slice of a block's words starts with the content words read so far. */
  lemma SlicePrefix(words: seq<nat>, c: nat, content: seq<nat>, w: nat)
    requires |content| < c && |words| >= |content| + 2 && words[..|content| + 2] == [c] + content + [w]
    ensures var e := Min(|words|, c + 1);
      1 <= e && |words[1..e]| > |content| && words[1..e][..|content| + 1] == content + [w]
  {
    var k, e := |content|, Min(|words|, c + 1);
    assert words[1..e][..k + 1] == words[1..k + 2];
    assert words[1..k + 2] == words[..k + 2][1..];
  }

  /** The words read so far are a prefix of the block scan. */
  lemma ContentPrefix(tape: seq<Frame>, pos: nat, c: nat, content: seq<nat>, w: nat, next: nat)
    requires ReadSoFar(tape, pos, [c] + content + [w], next) && |content| < c
    ensures var s := ReadWords(tape, pos, c + 2);
      |s.words| >= 1 && |Content(s, c)| > |content| && Content(s, c)[..|content| + 1] == content + [w]
  {
    ReadWordsPrefix(tape, pos, |content| + 2, c + 2);
    SlicePrefix(ReadWords(tape, pos, c + 2).words, c, content, w);
  }

  /** Content word number |content| of a block of c, read after `content`, was w. */
  lemma BlockPrefix(tape: seq<Frame>, pos: nat, c: nat, content: seq<nat>, w: nat, next: nat)
    requires ReadSoFar(tape, pos, [c] + content + [w], next) && |content| < c
    ensures ReadWords(tape, pos, 1).stop.Complete? && ReadWords(tape, pos, 1).words == [c]
    ensures var s := ReadWords(tape, pos, c + 2);
      |s.words| >= 1 && |Content(s, c)| > |content| && Content(s, c)[..|content| + 1] == content + [w]
  {
    ContentPrefix(tape, pos, c, content, w, next);
    HeadOf(tape, pos, |content| + 2);
  }

  /** The whole block scan, once all c content words and the checksum word were read. */
  lemma ContentComplete(tape: seq<Frame>, pos: nat, c: nat, content: seq<nat>, x: nat, next: nat)
    requires ReadSoFar(tape, pos, [c] + content + [x], next) && |content| == c
    ensures var s := ReadWords(tape, pos, c + 2);
      && s.stop.Complete? && s.words == [c] + content + [x] && s.next == next
      && Content(s, c) == content
  {
    var s := ReadWords(tape, pos, c + 2);
    assert Content(s, c) == s.words[1..c + 1];
  }

  /** All c content words and the checksum word x were read. */
  lemma BlockComplete(tape: seq<Frame>, pos: nat, c: nat, content: seq<nat>, x: nat, next: nat)
    requires ReadSoFar(tape, pos, [c] + content + [x], next) && |content| == c
    ensures ReadWords(tape, pos, 1).stop.Complete? && ReadWords(tape, pos, 1).words == [c]
    ensures var s := ReadWords(tape, pos, c + 2);
      && s.stop.Complete? && s.words == [c] + content + [x] && s.next == next
      && Content(s, c) == content
  {
    ContentComplete(tape, pos, c, content, x, next);
    HeadOf(tape, pos, c + 2);
  }

  /** One more read_next_word inside a block, after the count c and the words `content`. */
  lemma ScanNext(tape: seq<Frame>, pos: nat, c: nat, content: seq<nat>, at: nat)
    requires ReadSoFar(tape, pos, [c] + content, at)
    ensures at <= |tape|
    ensures var st := StepOf(Next(tape, at));
      st.Got? ==> ReadSoFar(tape, pos, [c] + (content + [st.word]), After(tape, Next(tape, at)))
  {
    ReadStep(tape, pos, [c] + content, at);
    var st := StepOf(Next(tape, at));
    if st.Got? {
      assert [c] + content + [st.word] == [c] + (content + [st.word]);
    }
  }

  lemma ChecksumSnoc(content: seq<nat>, w: nat)
    requires AllWords(content) && IsWord(w)
    ensures AllWords(content + [w]) && Checksum(content + [w]) == AddOnes(Checksum(content), w)
  {
    assert (content + [w])[..|content|] == content;
  }

  /** A stop inside a block after the count c and the words `content`: what the whole block scan records. */
  lemma ScanStopped(tape: seq<Frame>, pos: nat, c: nat, content: seq<nat>, at: nat, step: Step)
    requires ReadSoFar(tape, pos, [c] + content, at) && |content| <= c
    requires at <= |tape| && step == StepOf(Next(tape, at)) && !step.Got?
    ensures ReadWords(tape, pos, 1).stop.Complete? && ReadWords(tape, pos, 1).words[0] == c
    ensures var s := ReadWords(tape, pos, c + 2);
      && BlockScanOf(s, c) && |s.words| == |content| + 1 && Content(s, c) == content
      && (step.InnerFrames? ==> s.stop == StoppedAtInner(step.frames))
      && (step.Ended? ==> s.stop.StoppedAtEof?)
  {
    ReadStep(tape, pos, [c] + content, at);
    assert |[c] + content| + 1 == |content| + 2;
    BlockStopped(tape, pos, c, content);
    BlockScanFrom(tape, pos);
  }

  /** The words of a block scan that stopped after the count c and the words `content`. */
  lemma ScanStoppedWords(tape: seq<Frame>, pos: nat, c: nat, content: seq<nat>, at: nat, step: Step)
    requires ReadSoFar(tape, pos, [c] + content, at) && |content| <= c
    requires at <= |tape| && step == StepOf(Next(tape, at)) && !step.Got?
    ensures ReadWords(tape, pos, c + 2).words == [c] + content
  {
    ReadStep(tape, pos, [c] + content, at);
    assert |[c] + content| + 1 == |content| + 2;
    ContentStopped(tape, pos, c, content);
  }

  /** The checksum word read after all c content words: what the whole block scan records. */
  lemma ScanComplete(tape: seq<Frame>, pos: nat, c: nat, content: seq<nat>, at: nat, step: Step)
    requires ReadSoFar(tape, pos, [c] + content, at) && |content| == c
    requires at <= |tape| && step == StepOf(Next(tape, at)) && step.Got?
    ensures After(tape, Next(tape, at)) <= |tape|
    ensures ReadWords(tape, pos, 1).stop.Complete? && ReadWords(tape, pos, 1).words[0] == c
    ensures var s := ReadWords(tape, pos, c + 2);
      && BlockScanOf(s, c) && s.stop.Complete? && s.words[c + 1] == step.word && Content(s, c) == content
      && s.next == After(tape, Next(tape, at))
  {
    ScanNext(tape, pos, c, content, at);
    assert [c] + (content + [step.word]) == [c] + content + [step.word];
    BlockComplete(tape, pos, c, content, step.word, After(tape, Next(tape, at)));
    BlockScanFrom(tape, pos);
  }

  /** The words of a complete block scan: the count, the content and the checksum word. */
  lemma ScanCompleteWords(tape: seq<Frame>, pos: nat, c: nat, content: seq<nat>, at: nat, step: Step)
    requires ReadSoFar(tape, pos, [c] + content, at) && |content| == c
    requires at <= |tape| && step == StepOf(Next(tape, at)) && step.Got?
    ensures ReadWords(tape, pos, c + 2).words == [c] + content + [step.word]
  {
    ScanNext(tape, pos, c, content, at);
    assert [c] + (content + [step.word]) == [c] + content + [step.word];
    ContentComplete(tape, pos, c, content, step.word, After(tape, Next(tape, at)));
  }
}
