/**
 * The bit fields of a Notes word (parse_note), the pitch and articulation
 * tables, and the tempo word (decode_tempo_quarter, and the word the tweak
 * pass writes when it overrides the tempo).
 *
 * Layout of an 18-bit note word, most significant bit first:
 *   bits 17-16  articulation, high half (weights 8 and 4)
 *   bit  15     triplet
 *   bits 14-13  articulation, low half (weights 2 and 1)
 *   bits 12-7   pitch (0 and 1 are rests)
 *   bits 6-0    duration
 */
module NoteCodec {
  import opened Word18
  import opened Outcomes

  /** The four fields parse_note extracts. */
  datatype Note = Note(articulation: nat, triplet: nat, pitch: nat, duration: nat)

  predicate ValidNote(n: Note)
  {
    n.articulation < 16 && n.triplet < 2 && n.pitch < 64 && n.duration < 128
  }

  /** parse_note: the field extraction. */
  function ParseNote(w: nat): (n: Note)
    ensures ValidNote(n)
  {
    Note(4 * ((w / 65536) % 4) + (w / 8192) % 4, (w / 32768) % 2, (w / 128) % 64, w % 128)
  }

  /** The word whose fields are those of n: the inverse of ParseNote. */
  function EncodeNote(n: Note): (w: nat)
    requires ValidNote(n)
    ensures IsWord(w)
  {
    n.duration + 128 * n.pitch + 8192 * (n.articulation % 4) + 32768 * n.triplet + 65536 * (n.articulation / 4)
  }

  /** Every field combination is a distinct word: parsing an encoded note gives the note back. */
  lemma ParseEncode(n: Note)
    requires ValidNote(n)
    ensures ParseNote(EncodeNote(n)) == n
  {
    var w := EncodeNote(n);
    var d, p, a, t, h := n.duration, n.pitch, n.articulation % 4, n.triplet, n.articulation / 4;
    var w15 := t + 2 * h;
    var w13 := a + 4 * w15;
    var w7 := p + 64 * w13;
    assert w == w7 * 128 + d;
    Split(w, 128, w7, d);
    Split(w7, 64, w13, p);
    Split(w13, 4, w15, a);
    Split(w15, 2, h, t);
    Split(h, 4, 0, h);
    ShiftTwice(w, 128, 64);
    ShiftTwice(w, 8192, 4);
    ShiftTwice(w, 32768, 2);
  }

  /** The four fields cover all 18 bits: encoding the parsed fields gives the word back. */
  lemma EncodeParse(w: nat)
    requires IsWord(w)
    ensures EncodeNote(ParseNote(w)) == w
  {
    var n := ParseNote(w);
    var hi, lo := (w / 65536) % 4, (w / 8192) % 4;
    Split(n.articulation, 4, hi, lo);
    assert w == EncodeNote(n) by {
      var w7, w13, w15 := w / 128, w / 8192, w / 32768;
      ShiftTwice(w, 128, 64);
      ShiftTwice(w, 8192, 4);
      ShiftTwice(w, 32768, 2);
      Split(w, 128, w7, w % 128);
      Split(w7, 64, w13, w7 % 64);
      Split(w13, 4, w15, lo);
      assert w / 65536 < 4;
      Split(w15, 2, hi, w15 % 2);
    }
  }

  /** What parse_note makes of the pitch field. */
  datatype Pitch =
    | Rest
    | Tone(notePitch: nat, octave: nat, semitone: nat)   // notePitch 0 is C1

  /** parse_note: pitch 0 and 1 are rests; above that, twelve semitones per octave from C1. */
  function PitchOf(pitch: nat): (p: Pitch)
    ensures p.Rest? <==> pitch <= 1
    ensures p.Tone? ==> p.semitone < 12 && p.octave >= 1 && pitch == 12 * (p.octave - 1) + p.semitone + 2
  {
    if pitch > 1 then Tone(pitch - 2, (pitch - 2) / 12 + 1, (pitch - 2) % 12) else Rest
  }

  /** A six-bit pitch field stays within six octaves. */
  lemma OctaveBound(w: nat)
    ensures var p := PitchOf(ParseNote(w).pitch); p.Tone? ==> p.octave <= 6
  {
  }

  const NoteNames: seq<string> := ["C", "C#", "D", "D#", "E", "F", "F#", "G", "G#", "A", "A#", "B"]
  const RestName: string := "r"

  /** The name parse_note attaches: the semitone's name, or "r" for a rest. */
  function NoteName(pitch: nat): (s: string)
    ensures pitch <= 1 <==> s == RestName
    ensures pitch > 1 ==> s == NoteNames[(pitch - 2) % 12]
  {
    match PitchOf(pitch)
    case Rest => RestName
    case Tone(_, _, semitone) => NoteNames[semitone]
  }

  /** The codes articulation_name accepts, in the order of their names. */
  const ArticulationCodes: seq<nat> := [0, 1, 2, 4, 8]
  const ArticulationNames: seq<string> := ["normal", "quarter", "half", "staccato", "legato"]

  /** articulation_name: the index of a known code; any other code is fatal. */
  function ArticulationIndex(code: nat): (r: Option<nat>)
    ensures r.Some? <==> code in ArticulationCodes
    ensures r.Some? ==> r.value < 5 && ArticulationCodes[r.value] == code
  {
    if code <= 2 then Some(code)
    else if code == 4 then Some(3)
    else if code == 8 then Some(4)
    else None
  }

  /** Every name of the table belongs to exactly one code. */
  lemma ArticulationIndexInverse(i: nat)
    requires i < 5
    ensures ArticulationIndex(ArticulationCodes[i]) == Some(i)
  {
  }

  function ArticulationName(code: nat): (r: Result<string>)
    ensures r.Ok? <==> code in ArticulationCodes
    ensures r.Err? ==> r.fault == InvalidArticulation(code)
  {
    match ArticulationIndex(code)
    case Some(i) => Ok(ArticulationNames[i])
    case None => Err(InvalidArticulation(code))
  }

  /**
   * parse_note's note_duration: 192 / (duration * (triplet ? 2 : 3)), the
   * denominator of the printed note length. The source divides by zero for
   * a duration field of 0, so this requires a non-zero duration.
   */
  function NoteDuration(n: Note): (r: nat)
    requires ValidNote(n) && n.duration > 0
    ensures r <= 96
    ensures r * (n.duration * (if n.triplet == 1 then 2 else 3)) <= 192
    ensures 192 < (r + 1) * (n.duration * (if n.triplet == 1 then 2 else 3))
  {
    192 / (n.duration * (if n.triplet == 1 then 2 else 3))
  }

  /** How read_notes classifies one content word of a Notes block. */
  datatype Meaning =
    | Slash                                           // 0600000
    | TempoMark(raw: nat)                             // top three bits set; raw = low 15 bits
    | RestMark(note: Note)                            // pitch field 0 or 1
    | ToneMark(note: Note, articulation: Option<nat>) // None: an articulation code read_notes rejects

  function Classify(w: nat): (m: Meaning)
    ensures m.Slash? <==> w == Separator
    ensures m.TempoMark? <==> IsTempo(w)
    ensures m.TempoMark? ==> m.raw < TempoRange
    ensures m.ToneMark? || m.RestMark? ==> m.note == ParseNote(w)
    ensures m.ToneMark? ==> m.note.pitch > 1 && (m.articulation.Some? <==> m.note.articulation in ArticulationCodes)
    ensures m.RestMark? ==> m.note.pitch <= 1
  {
    if w == Separator then Slash
    else if IsTempo(w) then TempoMark(w % TempoRange)
    else
      var n := ParseNote(w);
      if n.pitch > 1 then ToneMark(n, ArticulationIndex(n.articulation)) else RestMark(n)
  }

  /**
   * The classification is exact: the separator, the tempo words (tag and
   * 15-bit value), and every other word as a note whose fields re-encode to
   * it; a pitched note is rejected exactly when its articulation code is
   * not one of the five known codes.
   */
  lemma ClassifyExact(w: nat)
    requires IsWord(w)
    ensures var m := Classify(w);
      && (m.Slash? <==> w == Separator)
      && (m.TempoMark? <==> IsTempo(w))
      && (m.TempoMark? ==> w == TempoTag + m.raw && m.raw < TempoRange)
      && ((m.RestMark? || m.ToneMark?) ==> ValidNote(m.note) && EncodeNote(m.note) == w)
      && (m.RestMark? ==> m.note.pitch <= 1)
      && (m.ToneMark? ==> m.note.pitch > 1 && (m.articulation.Some? <==> m.note.articulation in ArticulationCodes))
  {
    if w != Separator && !IsTempo(w) {
      EncodeParse(w);
    }
  }

  /** decode_tempo_quarter: 11436 over the low 15 bits; the source divides by zero when they are 0. */
  function DecodeTempoQuarter(w: nat): (bpm: nat)
    requires w % TempoRange != 0
    ensures bpm <= 11436
    ensures bpm * (w % TempoRange) <= 11436 < (bpm + 1) * (w % TempoRange)
  {
    11436 / (w % TempoRange)
  }

  /**
   * read_notes divides by zero on this content word: decode_tempo_quarter
   * on a tempo word whose low 15 bits are 0, or parse_note's note_duration
   * on any other word but 0600000 whose duration field is 0.
   */
  predicate ListingDivides(w: nat)
  {
    w != Separator && (if IsTempo(w) then w % TempoRange == 0 else w % 128 == 0)
  }

  /** The rendering of a bar calls parse_note on every word it renders, tempo words included. */
  predicate RenderingDivides(w: nat)
  {
    w % 128 == 0
  }

  /**
   * The divisions read_notes and the bar rendering would perform fail
   * exactly where the guards of DecodeTempoQuarter and NoteDuration do not
   * hold; a word read_notes divides by zero on also fails when rendered.
   */
  lemma DivisionExact(w: nat)
    ensures Classify(w).TempoMark? ==> (ListingDivides(w) <==> Classify(w).raw == 0)
    ensures Classify(w).RestMark? || Classify(w).ToneMark? ==> (ListingDivides(w) <==> Classify(w).note.duration == 0)
    ensures RenderingDivides(w) <==> ParseNote(w).duration == 0
    ensures ListingDivides(w) ==> RenderingDivides(w)
  {
    LowBitsOfTempo(w);
  }

  /** The duration field lies inside the low 15 bits. */
  lemma LowBitsOfTempo(x: nat)
    ensures (x % TempoRange) % 128 == x % 128
  {
    var q, r := x / TempoRange, x % TempoRange;
    assert x == 128 * (256 * q + r / 128) + r % 128;
  }

  /** The tempo word the tweak pass writes: 0700000 | (tempo & 077777). */
  function TempoWord(tempo: nat): (w: nat)
    ensures IsWord(w) && IsTempo(w)
    ensures w % TempoRange == tempo % TempoRange
  {
    TempoTag + tempo % TempoRange
  }

  /** A tempo word is fixed by its low 15 bits: read_notes classifies it back as that tempo. */
  lemma TempoWordRoundTrip(tempo: nat)
    ensures Classify(TempoWord(tempo)) == TempoMark(tempo % TempoRange)
  {
  }
}
