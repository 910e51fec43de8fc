# Harmony Compiler intermediate tape codec, in Dafny

The Harmony Compiler for the PDP-1 punches its intermediate result on a
binary paper tape. This project models the three C programs that read and
write such tapes, and proves what they promise:

- **decodehcint** (`verify/decodehcint.c`) decodes a tape into its voices.
  - Frames with bit 0200 set carry six data bits each; three of them make one 18-bit word (`rpb`).
  - Words are grouped in blocks: a count word, that many content words, and a ones'-complement checksum word.
  - Each voice is a Notes block followed by a Bars block. The Bars block indexes into a notes buffer of 8192 entries. There are at most four voices.
- **tweak** (`tweak/tweak.c`) copies a tape frame by frame.
  - It can rewrite every tempo word to a tempo given on the command line.
  - It re-punches the checksum over what it wrote.
  - It sets the gap between voices to a chosen length and keeps the leader, the inner gaps and the trailer as they were.
- **ascii2fiodec** (`hc_binmaker/src/ascii2fiodec.c`) works in three modes:
  - `-a` translates FIODEC frames to ASCII;
  - `-f` translates ASCII to FIODEC frames with an odd-parity bit, using two 64-entry case tables and one shift state;
  - with no flag, it dumps the 18-bit words assembled from binary frames.

The modules follow the programs:

| module | file | contents |
|---|---|---|
| `Word18` | word18.dfy | 18-bit words, `add_1s_complement`, the checksum fold, error detection |
| `Outcomes` | outcomes.dfy | the fatal conditions (each `exit(1)` of the C code) and `Result`/`Option` |
| `Tape` | tape.dfy | frames, `rpb` (`Next`, `Rpb`), `ppb`, blank runs, a reader with a cursor (`read_next_word`, `peek_gap`) and an appending writer |
| `NoteCodec` | notecodec.dfy | `parse_note`, pitches, articulation names, note durations, tempo words |
| `Blocks` | blocks.dfy | the count/content/checksum block scan shared by both tape programs |
| `Decoder` | decoder.dfy | `read_notes`, `read_bars`, the bar rendering, and the voice loop of decodehcint's `main` |
| `Tweak` | tweak.dfy | `copy_notes`, `copy_bars`, `write_gap`, tweak's `main` and its arguments |
| `Retweak` | retweak.dfy | reading back what tweak wrote: a second run reproduces the first run's output |
| `Redecode` | redecode.dfy | decoding what tweak wrote: decodehcint lists tweak's output as it lists the input, with the tempo words rewritten |
| `Fiodec` | fiodec.dfy | `putpar`, the case tables, the `-a`, `-f` and dump loops, and the `-f`/`-a` round trip |

**How the C programs become Dafny:**
- A tape is a `seq<Frame>`. The input stream is a `Reader` with a cursor, so `peek_gap` saves and restores that cursor.
- The output stream is a `Writer` whose `out` sequence grows.
- The notes buffer is an `array<nat>` of 8192 entries.
- Each loop of the C code is a method proved against a declarative specification function. For example, `ReadNotes` equals `ReadNotesSpec`, `Tweak` equals `TweakSpec`, and `DumpWords` equals `Groups(Digits(tape))`. The properties of each program are then lemmas about those functions.
- Every fatal path returns `Err` with a `Fault`.

## Model

| member | source | states |
|---|---|---|
| Word18.AddOnes | verify/decodehcint.c:165-169 | the result is below 2^18 for any two 32-bit inputs; for 18-bit inputs it is their sum, with the carry out of bit 17 added back in (a + b − 0777777 when the sum overflows) |
| Word18.AddOnesLaws | verify/decodehcint.c:165-169 | add_1s_complement is commutative on 18-bit words, and 0 is its identity |
| Word18.Checksum | verify/decodehcint.c:219-224 | the running checksum, folded from 0 over the content words, is always an 18-bit word |
| Word18.ChecksumClosedForm | verify/decodehcint.c:219-224 | the fold is the ones'-complement sum: 0 when the plain sum is 0, otherwise (sum − 1) mod 0777777 + 1 |
| Word18.ChangeDetected | verify/decodehcint.c:171-178 | changing one content word by a non-zero amount smaller than 0777777 always changes the checksum, so verify_checksum rejects the block |
| Word18.BitFlipDetected | verify/decodehcint.c:171-178 | flipping any one of the 18 bits of one content word always changes the checksum |
| Tape.Assemble | verify/decodehcint.c:63-77 | an assembled word is below 2^18 and ends at least 3 − i frames on; the gap count never decreases and stops growing once the first binary frame has been taken |
| Tape.Next | verify/decodehcint.c:56-80 | rpb returns a word below 2^18, so never the EOF sentinel, and consumes at least three frames |
| Tape.Rpb | verify/decodehcint.c:56-80 | the frame-by-frame loop computes exactly the word, gap, inner-frame count and end position that `Next` specifies |
| Tape.NextShape | verify/decodehcint.c:63-77 | a word with no inner frames is: gap blank frames, then three binary frames whose low six bits, most significant first, form the word |
| Tape.NextOfFrames | verify/decodehcint.c:63-77 | conversely, g non-binary frames followed by three binary frames are read as that word, with gap g and no inner frames |
| Tape.NextOfBlanks | verify/decodehcint.c:63-76 | a tape holding only non-binary frames from pos on reads as EOF, with the whole blank run counted as the gap |
| Tape.PpbFrames | tweak/tweak.c:66-70 | ppb's three frames each have bit 0200 set and carry bits 17-12, 11-6 and 5-0 of the word |
| Tape.Ppb | tweak/tweak.c:66-70 | ppb writes exactly three frames for a word, each with bit 0200 punched (a binary frame) |
| Tape.PpbRoundTrip | tweak/tweak.c:66-70 | rpb over the frames of ppb(w) returns w, with zero gap and zero inner frames |
| Tape.EncodeWords | tweak/tweak.c:66-70 | punching a sequence of words writes exactly three frames per word |
| Tape.Blanks | tweak/tweak.c:242-246 | write_gap(len) writes exactly len zero frames, and none when len is negative |
| Tape.NextOfEncoded | tweak/tweak.c:242-246 | a run of g zero frames followed by ppb(w) is read back as w with gap g |
| Tape.ReadWords | verify/decodehcint.c:82-109 | k successive read_next_word calls return at most k words, all 18-bit, with one gap per word; the scan is complete exactly when all k words were read |
| Tape.ReadWordsPrefix | verify/decodehcint.c:82-109 | when the first j reads complete, a longer run of reads begins with the same j words and gaps |
| Tape.ReadEncoded | tweak/tweak.c:66-70 | reading back a gap of g frames followed by the punched words ws returns exactly ws, with gap g before the first word and 0 before the others |
| Tape.Reader.ReadNextWord | verify/decodehcint.c:82-109 | the cursor moves past exactly the word that `Next` reads; word_count goes up by one only when a word was read |
| Tape.Reader.PeekGap | verify/decodehcint.c:111-133 | the cursor is restored; the result says whether a word follows and how many blank frames precede it, so the next read returns that same word and gap |
| Tape.Writer.PutWord | tweak/tweak.c:66-70 | ppb appends the three frames of the word to the output and changes nothing else |
| Tape.Writer.WriteGap | tweak/tweak.c:242-246 | write_gap appends exactly the blank run of the given length to the output |
| NoteCodec.ParseNote | verify/decodehcint.c:135-139 | each field fits its width: articulation below 16, triplet below 2, pitch below 64, duration below 128 |
| NoteCodec.EncodeNote | verify/decodehcint.c:135-139 | packing valid fields into their bit positions gives an 18-bit word |
| NoteCodec.ParseEncode | verify/decodehcint.c:135-139 | parse_note recovers every field combination from its packed word |
| NoteCodec.EncodeParse | verify/decodehcint.c:135-139 | every 18-bit word is the packing of the fields parse_note extracts from it, so no bit is lost |
| NoteCodec.PitchOf | verify/decodehcint.c:143-154 | a rest exactly when pitch ≤ 1; otherwise semitone below 12, octave at least 1, and pitch = 12·(octave − 1) + semitone + 2 |
| NoteCodec.OctaveBound | verify/decodehcint.c:143-147 | helper fact behind NoteName: no 18-bit word decodes to an octave above 6 |
| NoteCodec.NoteName | verify/decodehcint.c:148-153 | the name is "r" exactly for rests; otherwise it is NOTE_NAMES[(pitch − 2) mod 12] |
| NoteCodec.ArticulationIndex | verify/decodehcint.c:180-199 | an index exists exactly for the codes 0, 1, 2, 4 and 8; it is below 5 and leads back to the code |
| NoteCodec.ArticulationIndexInverse | verify/decodehcint.c:182-193 | codes 0, 1, 2, 4 and 8 map to indices 0 to 4 in that order |
| NoteCodec.ArticulationName | verify/decodehcint.c:180-199 | a name is returned exactly for the five known codes; any other code is the fatal InvalidArticulation(code) |
| NoteCodec.NoteDuration | verify/decodehcint.c:141 | the printed duration is the integer quotient of 192 by duration × (triplet ? 2 : 3): r·d ≤ 192 < (r + 1)·d, and r ≤ 96 |
| NoteCodec.ClassifyExact | verify/decodehcint.c:233-246 | a Notes content word is the separator exactly when it is 0600000 and a tempo exactly when its top three bits are set (the tempo is the low 15 bits); every other word is a note whose fields re-encode to it, rejected exactly when it has pitch > 1 and an unknown articulation |
| NoteCodec.Classify | verify/decodehcint.c:233-246 | a Notes content word is the separator exactly when it is 0600000, a tempo exactly when its top three bits are set (the value then below 0100000), otherwise the note parse_note makes of it: a tone when its pitch is above 1, whose articulation is known exactly when its code is in {0, 1, 2, 4, 8}, and a rest otherwise |
| NoteCodec.DecodeTempoQuarter | verify/decodehcint.c:157-163 | the BPM is the integer quotient of 11436 by the low 15 bits of the word |
| NoteCodec.DivisionExact | verify/decodehcint.c:141 | read_notes divides by zero on a tempo word exactly when its low 15 bits are 0, and on any other word but 0600000 exactly when its duration field is 0; a rendered word divides exactly when its duration field is 0; a word read_notes divides by also fails when rendered |
| NoteCodec.TempoWord | tweak/tweak.c:171-172 | 0700000 \| (tempo & 077777) is an 18-bit tempo word carrying tempo mod 2^15 |
| NoteCodec.TempoWordRoundTrip | tweak/tweak.c:171-172 | the decoder classifies the word tweak writes as a tempo mark with value tempo mod 2^15 |
| Blocks.ChecksumSnoc | verify/decodehcint.c:219-221 | the loop invariant of the running checksum: extending the content by one word extends the fold by add_1s_complement |
| Decoder.NotesCountOf | verify/decodehcint.c:228 | notes_count is n − 1, and 2^32 − 1 when n is 0 (unsigned wrap-around) |
| Decoder.NoteFaultExact | verify/decodehcint.c:223-256 | a Notes content word is fatal exactly when its buffer index reaches 8192, or when it is neither 0600000 nor a tempo and has pitch > 1 and an articulation outside {0, 1, 2, 4, 8}; rests never fail on articulation |
| Decoder.NoteFault | verify/decodehcint.c:223-246 | from buffer index 8192 on a content word overruns the notes buffer; below it the word fails exactly when it is a tone with an unknown articulation, reported with that articulation code |
| Decoder.NotesVerdict | verify/decodehcint.c:217-232 | an accepted Notes block has exactly count content words, count ≤ 8192, all 18-bit; the cursor stops after the checksum word and word_count rises by count + 2 |
| Decoder.ReadNotesSpec | verify/decodehcint.c:201-270 | read_notes from a tape position: on success, as above, with an 18-bit count and the cursor inside the tape |
| Decoder.NotesStopped | verify/decodehcint.c:212-215 | a read that fails inside a Notes block is fatal: EOF gives EofInNotes, inner blank frames give InnerBlank with the number of the word |
| Decoder.NotesComplete | verify/decodehcint.c:230-232 | once all content words are read, a checksum word that differs from the fold gives ChecksumMismatch(expected, calculated); otherwise the block is accepted with that content |
| Decoder.NotesFault | verify/decodehcint.c:219-256 | the first content word that is fatal decides the error of the block |
| Decoder.Overwrite | verify/decodehcint.c:223 | after read_notes the buffer holds the content from index 0; entries beyond it keep their old values (the buffer is never cleared) |
| Decoder.MeasureEnd | verify/decodehcint.c:331-339 | the rendering of a bar starting at index k stops at an index between k and the end of the buffer |
| Decoder.MeasureEndAt | verify/decodehcint.c:333 | the rendering stops on a 0600000 or on reaching notes_count |
| Decoder.MeasureEndBefore | verify/decodehcint.c:333-338 | every index the rendering passes holds a word other than 0600000 and is below notes_count |
| Decoder.MeasureEndNone | verify/decodehcint.c:333-338 | the rendering reads past the buffer exactly when no index from k on stops it |
| Decoder.BarFault | verify/decodehcint.c:316-326 | a Bars content word is accepted exactly when it is 0600000 in the last content position, or an index below notes_count whose rendering stays inside the buffer |
| Decoder.BarLineOf | verify/decodehcint.c:316-341 | a Bars content word prints the end mark exactly when it is 0600000; any other word prints measure number i + 1 and note words that never include 0600000, none when the rendering runs off the buffer |
| Decoder.BarsVerdict | verify/decodehcint.c:283-315 | an accepted Bars block has one rendered line per content word; EOF inside the block ends the tape normally; another voice follows only when the peek finds a word |
| Decoder.ReadBarsSpec | verify/decodehcint.c:272-346 | read_bars from a tape position: on success, one line per content word, the cursor inside the tape, word_count never lower, and more voices only when a word follows |
| Decoder.BarsStopped | verify/decodehcint.c:284-286 | EOF inside a Bars block ends the voice loop normally, but inner blank frames are fatal |
| Decoder.BarsComplete | verify/decodehcint.c:303-315 | a checksum mismatch is fatal; otherwise the block is accepted, and another voice follows exactly when peek_gap finds a word |
| Decoder.BarsFault | verify/decodehcint.c:316-326 | the first Bars content word that is fatal decides the error of the block |
| Decoder.DecodeVoices | verify/decodehcint.c:375-390 | the voice loop from voice v decodes at least one and at most 5 − v voices, and word_count never decreases |
| Decoder.DecodeSpec | verify/decodehcint.c:365-390 | a successful decode has between one and four voices |
| Decoder.DataLength | verify/decodehcint.c:392 | the DATA LENGTH figure is word_count × 18 bits rounded up to whole bytes |
| Decoder.NextNoteWord | verify/decodehcint.c:212-224 | one content word of read_notes: it is read, checked and stored, or it decides the result of ReadNotesSpec |
| Decoder.ReadNoteWords | verify/decodehcint.c:211-229 | the content loop of read_notes stores the content at the start of the buffer or ends with the error ReadNotesSpec gives |
| Decoder.ReadNotesChecksum | verify/decodehcint.c:230-232 | the checksum word of read_notes gives exactly ReadNotesSpec |
| Decoder.ReadNotes | verify/decodehcint.c:201-270 | read_notes returns ReadNotesSpec; on success the cursor is after the block and the buffer is overwritten with the content from index 0 |
| Decoder.RenderMeasure | verify/decodehcint.c:331-339 | the rendering loop returns notes[start..e] for the index e where it stops, and None when it would read past the buffer |
| Decoder.NextBarWord | verify/decodehcint.c:284-342 | one content word of read_bars: it is read, checked and rendered, or it decides the result of ReadBarsSpec |
| Decoder.ReadBarWords | verify/decodehcint.c:283-343 | the content loop of read_bars reads count words or ends with the result ReadBarsSpec gives |
| Decoder.ReadBarsChecksum | verify/decodehcint.c:303-315 | the checksum word and the peek of read_bars give exactly ReadBarsSpec |
| Decoder.ReadBars | verify/decodehcint.c:272-346 | read_bars returns ReadBarsSpec, and on success the cursor is at the end of the block |
| Decoder.VoiceStep | verify/decodehcint.c:381-389 | helper fact, an unfolding of the voice loop used by the proofs about it: one pass is the Notes block, then the Bars block against the updated buffer and notes_count, then the next voice when a word follows |
| Decoder.Decode | verify/decodehcint.c:348-400 | the voice loop of main, with its word counter and buffer, returns exactly DecodeSpec |
| Tweak.RewriteWord | tweak/tweak.c:171-177 | the word written for an 18-bit content word is again 18-bit |
| Tweak.Rewrite | tweak/tweak.c:171-184 | the rewritten content has as many words as the content read, all 18-bit |
| Tweak.RewriteMeaning | tweak/tweak.c:171-177 | with a tempo set, a tempo word becomes a tempo mark carrying the new tempo mod 2^15; every other word, and every word when no tempo is set, keeps its meaning |
| Tweak.RewriteNoTempo | tweak/tweak.c:171 | with tempo −1 the content is written unchanged |
| Tweak.RewriteIdempotent | tweak/tweak.c:171-177 | rewriting content that was already rewritten changes nothing |
| Tweak.BlockFrames | tweak/tweak.c:66-70 | a punched block is three frames for each of the count, the content words and the checksum |
| Tweak.NotesCopyVerdict | tweak/tweak.c:148-185 | copy_notes accepts a block exactly when it is complete and its checksum word equals the fold of the content read; it writes 3·(count + 2) frames; a failure is a framing or checksum fault |
| Tweak.CopyNotesSpec | tweak/tweak.c:140-190 | copy_notes from a tape position: on success the cursor advances within the tape; a failure is a framing or checksum fault |
| Tweak.NotesCopyWords | tweak/tweak.c:163-184 | an accepted Notes block is written as: the count, the rewritten content, and the checksum of the rewritten content; the count and checksum positions are never substituted |
| Tweak.NotesVerbatim | tweak/tweak.c:179-183 | with tempo −1, copy_notes writes its input block word for word, checksum included |
| Tweak.NotesCopyStopped | tweak/tweak.c:148-152 | a read that fails inside a Notes block is fatal: EOF gives EofInNotes, inner frames give InnerBlank |
| Tweak.NotesCopyComplete | tweak/tweak.c:167-170 | a checksum word that differs from the fold of the content read is fatal; otherwise the rewritten block is written |
| Tweak.BarsCopyVerdict | tweak/tweak.c:201-235 | copy_bars succeeds exactly when the tape ends inside the block or the block is complete with a matching checksum; it writes every word it read unchanged, and more is set only when another word follows |
| Tweak.CopyBarsSpec | tweak/tweak.c:192-240 | copy_bars from a tape position: on success the cursor stays within the tape, and more implies that a word follows; a failure is a framing or checksum fault, never an index check |
| Tweak.ReadContentWord | tweak/tweak.c:149-152 | one read_next_word inside a block: the step is what rpb finds at the cursor, the cursor moves past it, the word count grows only when a word was read, and a word read is 18 bits and extends the block read so far |
| Tweak.BarsCopyStopped | tweak/tweak.c:202-204 | EOF inside a Bars block ends the run normally, but inner frames are fatal |
| Tweak.BarsCopyComplete | tweak/tweak.c:221-231 | a checksum mismatch is fatal; otherwise the block is written as read, and more is set exactly when peek_gap finds a word |
| Tweak.Trailer | tweak/tweak.c:331-338 | the end of a run succeeds exactly when no word is left, and writes the blank run before EOF at its input length; otherwise it fails with TrailingData |
| Tweak.VoiceSpec | tweak/tweak.c:308-324 | one voice: a Notes block, a peek that must find a word (MissingBars otherwise), the inner gap at its input length, then the Bars block; the cursor advances, and more implies that a word follows; a failure is a framing or checksum fault |
| Tweak.CopyNoteWord | tweak/tweak.c:149-184 | one content word of copy_notes: it is read, the checksums are extended, and its rewritten form is written |
| Tweak.CopyNoteWords | tweak/tweak.c:148-185 | the content loop of copy_notes writes the count and the rewritten content, or ends with the error CopyNotesSpec gives |
| Tweak.CopyNotes | tweak/tweak.c:140-190 | copy_notes fails exactly as CopyNotesSpec does and on success writes exactly its frames |
| Tweak.CopyBarWord | tweak/tweak.c:202-234 | one content word of copy_bars: it is read, added to the checksum and written unchanged |
| Tweak.CopyBarWords | tweak/tweak.c:201-235 | the content loop of copy_bars writes every word it read, or ends with the result CopyBarsSpec gives |
| Tweak.CopyBars | tweak/tweak.c:192-240 | copy_bars fails exactly as CopyBarsSpec does and on success writes exactly its frames |
| Tweak.TweakVoice | tweak/tweak.c:308-324 | one pass of the voice loop, up to the voice gap: it fails exactly as VoiceSpec does, and on success writes exactly its frames and leaves the cursor after the Bars block |
| Tweak.VoiceEnds | tweak/tweak.c:322-338 | when no word follows a voice, the run is that voice followed by the trailer |
| Tweak.VoiceContinues | tweak/tweak.c:326-328 | when a word follows a voice, the run is that voice, a gap of gap_length, and the rest of the voice loop |
| Tweak.Tweak | tweak/tweak.c:293-338 | main's sequence (leader, voice loop, voice gaps, trailer) writes exactly TweakSpec |
| Tweak.TweakVoices | tweak/tweak.c:302-338 | the voice loop fails only with a framing or checksum fault (never an articulation, index or buffer fault: tweak does not look inside note or bar words) |
| Tweak.TweakSpec | tweak/tweak.c:293-338 | a run fails with EmptyTape exactly when the tape holds no word; every other failure is a framing or checksum fault; a run that succeeds begins with the leader copied at its input length |
| Tweak.AsUInt32 | tweak/tweak.c:276 | the (unsigned) cast gives a 32-bit value congruent to the argument modulo 2^32 |
| Tweak.SettingsOf | tweak/tweak.c:249-283 | arguments as the code reads them: usage error unless 3 ≤ argc ≤ 5; the voice gap is argv[4] when argc is 5, else 18 |
| Tweak.SettingsDropTempo | tweak/tweak.c:276 | as written, giving a gap length turns the tempo off: no tempo word is rewritten |
| Tweak.SettingsDropTempoExample | tweak/tweak.c:276 | concrete case: tempo 120 with gap 30 leaves the tempo word 0700144 as it was |
| Tweak.IntendedSettingsOf | tweak/tweak.c:249-283 | arguments as the usage line describes them: usage error unless 3 ≤ argc ≤ 5 |
| Tweak.IntendedHonoursTempo | tweak/tweak.c:249-283 | with the corrected handling, a given tempo is written into every tempo word whether or not a gap length follows; a tempo of −1 leaves them unchanged |
| Tweak.TempoBits | tweak/tweak.c:276 | the cast to uint32 keeps the low 15 bits of the tempo argument |
| Tweak.TweakRunSpec | tweak/tweak.c:248-338 | the whole program as written: a wrong argument count is a usage error before any frame is read; three arguments run with no tempo and gap 18, four with the tempo and gap 18, five with the gap and no tempo |
| Tweak.TweakRun | tweak/tweak.c:248-338 | the argument handling and the run return exactly TweakRunSpec |
| Tweak.IntendedTweakRunSpec | tweak/tweak.c:248-338 | the whole program with the corrected argument handling: as TweakRunSpec, except that five arguments run with both the tempo and the gap |
| Retweak.NotesOut | tweak/tweak.c:163-184 | a Notes block that tweak writes is a well-formed block: 18-bit count, content of that length whose tempo words already carry the tempo, and its checksum |
| Retweak.NotesRereadAt | tweak/tweak.c:140-190 | copy_notes run over a block that tweak wrote writes the same block again |
| Retweak.BarsOut | tweak/tweak.c:201-235 | a Bars block that tweak wrote is its words as read: a complete block carries its checksum, and an incomplete one reaches the end of the tape |
| Retweak.BarsRereadComplete | tweak/tweak.c:192-240 | copy_bars run over a complete Bars block that tweak wrote writes it again unchanged |
| Retweak.BarsRereadEnd | tweak/tweak.c:201-204 | copy_bars run over a cut-off Bars block at the end of a written tape copies it and ends the run |
| Retweak.TrailerReread | tweak/tweak.c:331-338 | the trailer that tweak wrote is read back as EOF after the same blank run |
| Retweak.VoicesReread | tweak/tweak.c:302-329 | the voice loop run over tweak's output from voice v on gives the same frames it gave on the original tape |
| Retweak.TweakIdempotent | tweak/tweak.c:293-338 | the output of a good run is a good tape, and tweak with the same tempo and gap writes it back frame for frame |
| Redecode.NoteFaultKept | verify/decodehcint.c:233-246 | a word rewritten as copy_notes rewrites it raises exactly the read_notes fault of the original word (a tempo word stays a tempo word) |
| Redecode.MeasureEndKept | verify/decodehcint.c:331-339 | the rendering of a bar stops at the same index in the rewritten notes buffer as in the original one |
| Redecode.NotesRedecode | verify/decodehcint.c:201-270 | read_notes, without its divisions (see Left out), on the Notes block copy_notes wrote returns the input block's verdict: the same fault, or the same count and word_count with the content rewritten |
| Redecode.BarsRedecode | verify/decodehcint.c:272-346 | read_bars, without its divisions, on the Bars block copy_bars wrote, against the rewritten buffer, returns the input block's verdict with its rendered bars rewritten; another voice follows exactly when tweak copied one |
| Redecode.VoicesRedecode | verify/decodehcint.c:375-390 | main's voice loop, without the divisions, over tweak's output, from any voice v on, lists the input's voices from v on with their Notes words rewritten, or fails with the input's fault |
| Redecode.TweakThenDecode | tweak/tweak.c:293-338 | decodehcint, without its divisions, run on the output of a good tweak run gives the input's listing with each Notes word (and each rendered bar) rewritten as copy_notes rewrites it: same voices, same Bars content, same word_count, same fault |
| Redecode.TweakKeepsDecode | tweak/tweak.c:293-338 | without a tempo argument, decodehcint lists tweak's output exactly as it lists the input |
| Redecode.TweakTempoDecoded | tweak/tweak.c:171-184 | with a tempo, and without the decoder's divisions, tweak's output decodes exactly when the input does, to as many voices with the same Bars content and word_count; every tempo mark read from its Notes is the chosen tempo modulo 2^15, every other Notes word is the input's |
| Redecode.RewriteWordDivides | tweak/tweak.c:171-177 | a word copy_notes rewrites makes decodehcint divide by zero exactly where the original does, except a replaced tempo word: it makes read_notes divide exactly when the tempo's low 15 bits are 0, and a bar rendering exactly when its low 7 bits are 0 |
| Redecode.RewriteDivides | verify/decodehcint.c:233-246 | a listing with its Notes words rewritten for a tempo makes decodehcint divide by zero only if the original listing does, or the tempo's low 7 bits are 0 |
| Redecode.TweakDivisions | tweak/tweak.c:293-338 | when tweak's output decodes, decodehcint divides by zero on it only if it does on the input, or the tempo's low 7 bits are 0 |
| Redecode.TempoDivisionExamples | tweak/tweak.c:171-177 | both exceptions occur: tempo 32768 writes 0700000, which read_notes divides by; tempo 128 writes 0700200, which a rendered bar divides by; and a listing that divides at 0700000 stops dividing with tempo 100 |
| Fiodec.CountOnes | hc_binmaker/src/ascii2fiodec.c:63-65 | the bit-counting loop of putpar returns the number of 1 bits |
| Fiodec.PutPar | hc_binmaker/src/ascii2fiodec.c:60-67 | putpar writes ch or ch + 0200, chosen by the parity of ch's 1 bits |
| Fiodec.WithParityOdd | hc_binmaker/src/ascii2fiodec.c:60-67 | for a 7-bit ch, the frame putpar writes has an odd number of 1 bits and the same low 7 bits |
| Fiodec.WithParity | hc_binmaker/src/ascii2fiodec.c:60-67 | for a 7-bit ch, putpar writes ch itself or ch with bit 0200 added |
| Fiodec.ParityFrame | hc_binmaker/src/ascii2fiodec.c:60-67 | for a table index i, putpar(i) has odd parity, bit 0100 clear, and low six bits i |
| Fiodec.DecodeFrame | hc_binmaker/src/ascii2fiodec.c:109-133 | one -a frame prints at most one character, never NUL; only 0272 and 0274 change the case; a character other than newline comes only from an odd-parity frame with bit 0100 clear, through the table of the current case |
| Fiodec.DecodeFrom | hc_binmaker/src/ascii2fiodec.c:108-134 | -a output is never longer than its input and contains no NUL |
| Fiodec.DecodeStep | hc_binmaker/src/ascii2fiodec.c:109-133 | the switch of the -a loop computes DecodeFrame |
| Fiodec.DecodeAscii | hc_binmaker/src/ascii2fiodec.c:106-136 | the -a loop starts in lower case and prints DecodeFrom of the whole input |
| Fiodec.DataFrameDecodes | hc_binmaker/src/ascii2fiodec.c:119-132 | an odd-parity frame with bit 0100 clear, other than a control frame, prints its table entry for the current case, or nothing when the entry is 0 |
| Fiodec.FirstMatch | hc_binmaker/src/ascii2fiodec.c:148-165 | a match found from index i lies between i and 63, and the table of its case holds the character there |
| Fiodec.FirstMatchNone | hc_binmaker/src/ascii2fiodec.c:148-165 | when there is no match, the character is in neither table from index i on |
| Fiodec.FirstMatchFirst | hc_binmaker/src/ascii2fiodec.c:148-165 | the match is at the first index where either table holds the character |
| Fiodec.FirstMatchPrefersUpper | hc_binmaker/src/ascii2fiodec.c:149-157 | a lower-case match is chosen only when the upper table differs at that index |
| Fiodec.NulMatchesCode10 | hc_binmaker/src/ascii2fiodec.c:148-156 | a NUL input byte matches the empty entry upper[10] |
| Fiodec.FindCode | hc_binmaker/src/ascii2fiodec.c:148-165 | the table search loop returns FirstMatch from index 0 |
| Fiodec.EncodeChar | hc_binmaker/src/ascii2fiodec.c:142-165 | one -f character writes at most two frames; a shift code, for the new case, is written exactly when the case changes |
| Fiodec.EncodeFrom | hc_binmaker/src/ascii2fiodec.c:141-166 | -f writes at most two frames per input character |
| Fiodec.EncodeText | hc_binmaker/src/ascii2fiodec.c:138-169 | -f output always ends with the stop code 013 |
| Fiodec.EncodeStep | hc_binmaker/src/ascii2fiodec.c:142-165 | one pass of the -f loop computes EncodeChar |
| Fiodec.EncodeFiodec | hc_binmaker/src/ascii2fiodec.c:138-169 | the -f loop starts in lower case and writes EncodeText of the whole input |
| Fiodec.PrintableOf | hc_binmaker/src/ascii2fiodec.c:141-165 | the characters -f can represent (space, tab, newline, or a non-NUL table entry), in order |
| Fiodec.SpaceFrameDecodes | hc_binmaker/src/ascii2fiodec.c:142-143 | the frame 0200 that -f writes for a space reads back as a space in either case |
| Fiodec.TabFrameDecodes | hc_binmaker/src/ascii2fiodec.c:144-145 | the frame 0236 that -f writes for a tab reads back as a tab in either case |
| Fiodec.StopCodeDecodes | hc_binmaker/src/ascii2fiodec.c:167 | the stop code 013 reads back as '@' in either case |
| Fiodec.AtSignEncodes | hc_binmaker/src/ascii2fiodec.c:12-15 | -f writes an '@' as the stop code 013, after a shift to upper case when in lower case, since upper[11] is tried before lower[11] |
| Fiodec.ShiftFrameDecodes | hc_binmaker/src/ascii2fiodec.c:110-115 | a shift code sets the case it selects and prints nothing |
| Fiodec.DecodeEncodeChar | hc_binmaker/src/ascii2fiodec.c:141-165 | -a reads back one -f character as that character when it is representable, and as nothing otherwise; both sides end in the same case |
| Fiodec.DecodeEncodeFrom | hc_binmaker/src/ascii2fiodec.c:141-166 | -a reads back any -f text as its representable characters, in order |
| Fiodec.RoundTrip | hc_binmaker/src/ascii2fiodec.c:138-169 | -a applied to the -f output of a text gives its representable characters followed by '@' |
| Fiodec.DigitOf | hc_binmaker/src/ascii2fiodec.c:177-197 | a frame contributes a digit only when it has bit 0200 set and bit 0100 clear, and the digit is its low six bits |
| Fiodec.Digits | hc_binmaker/src/ascii2fiodec.c:171-209 | the digits of a tape are at most one per frame, each below 64 |
| Fiodec.Groups | hc_binmaker/src/ascii2fiodec.c:197-200 | the dump yields one word per three digits; a trailing partial group gives none |
| Fiodec.GroupsAreWords | hc_binmaker/src/ascii2fiodec.c:197-200 | three 6-bit digits always make an 18-bit word |
| Fiodec.GroupsSnocPartial | hc_binmaker/src/ascii2fiodec.c:197-198 | a first or second digit of a group completes no word |
| Fiodec.GroupsSnocFull | hc_binmaker/src/ascii2fiodec.c:197-200 | the third digit d completes the word (val << 6) \| d |
| Fiodec.DumpFrame | hc_binmaker/src/ascii2fiodec.c:177-208 | one frame of the dump loop keeps val, cyc and the words printed in step with the digits read |
| Fiodec.DumpWords | hc_binmaker/src/ascii2fiodec.c:171-209 | the dump loop prints exactly the words formed by each complete group of three digits |
| Fiodec.DigitsOfBlanks | hc_binmaker/src/ascii2fiodec.c:177-188 | a blank run contributes no digits |
| Fiodec.DigitsOfPpb | hc_binmaker/src/ascii2fiodec.c:189-200 | the dump reads the three frames of a punched word as that word |
| Fiodec.DumpEncoded | hc_binmaker/src/ascii2fiodec.c:171-209 | the dump of the punched words ws has 3·|ws| digits and prints exactly ws |
| Fiodec.DumpAfterLeader | hc_binmaker/src/ascii2fiodec.c:171-209 | the dump of a leader followed by punched words prints exactly those words |

## Left out

**Not modelled at all:**
- The Python tools (SVG rendering, image conversion, title scripts, merge). They are file and image I/O with no logic worth proving.
- All printf output and layout: the voice banners, the per-word listing, and the column and line wrapping of the dump mode.
  - The decoder's listing is modelled as data (the words of each voice and the rendered bar lines), not as text.
  - The dump mode is modelled as the sequence of words it prints.
- The CHM speed multiplier. It is floating point used only for display.
- The float `ceil` of the DATA LENGTH line. It is given in its integer form (`DataLength`).
- Opening files, the `-` stdin/stdout choice and `fclose`. The input is a frame sequence and the output an appended frame sequence.
- An `ftell` or `fseek` failure in `peek_gap`. The cursor is always restored.
- Allocation failure of the notes buffer.
- Argument parsing of ascii2fiodec, including the MAC `ccommand`, and the column and skip arguments. The mode is chosen by calling `DecodeAscii`, `EncodeFiodec` or `DumpWords`.
- Characters above 255 from `getchar`. Input is bytes.
- tweak's unused notes buffer and `INNER_VOICE_GAP_LENGTH`. Neither affects the output.
- Output written before a fatal error. A fatal run returns only `Err`, not the partial output tweak has already written.

**Behaviour turned into errors or preconditions:**
- **Notes buffer overrun:** the decoder writes `notes[i]` for i ≥ 8192, and reads past the buffer while rendering a bar. Both are the fatal `BufferOverrun` instead of undefined behaviour.
- **Division by zero** (duration 0, or tempo low bits 0) is not reproduced. `NoteDuration` and `DecodeTempoQuarter` require a non-zero divisor, and the decoder's result keeps the raw words, so it never divides. Where decodehcint would stop on such a division is stated separately, on a complete listing, by `Redecode.DividesByZero`.
- Redecode.TweakThenDecode, Redecode.TweakTempoDecoded: "the same fault" and "decodes exactly when the input does" hold for the model's decoder, not for decodehcint. decodehcint divides by zero on tweak's output when the tempo's low 15 bits are 0 (tempo word 0700000) or, in a rendered bar, when its low 7 bits are 0 (tempo 128 writes 0700200). The other way round, an input tempo word 0700000 stops decodehcint, but tweak's replacement may not. `Redecode.TweakDivisions` bounds the new divisions on a listing that decodes, and `Redecode.TempoDivisionExamples` shows both cases. On a tape with a fault, decodehcint may divide by zero before it reaches the fault; the model does not track that.
- **The -f search loop** runs to index 100 over 64-entry tables. The model searches the 64 entries only, so reads beyond the tables are not modelled.
- **Initial buffer contents:** `malloc`'s notes buffer is taken to hold zeros before the first voice.
- **Gap lengths:** `rpb`'s gap and inner counters are unbounded naturals. A run longer than 2^32 − 1 frames would wrap in the C code.
- **Word counts:** `word_count` (a `uint32_t` at verify/decodehcint.c:365, tweak/tweak.c:145 and tweak/tweak.c:199) is an unbounded natural in the model. The C counter wraps after 2^32 − 1 words. This affects the word count `Decoder.Decode` returns, so the DATA LENGTH figure (`Decoder.DataLength`), and the word number carried by an `InnerBlank` fault, both only on tapes of more than 2^32 − 1 words.
- **atoi results:** tweak's gap-length argument is modelled as an unbounded integer.

**Where the code and the project's documentation disagree, the model follows the code:**
- An EOF inside a Bars block is not an error. `read_bars` and `copy_bars` return EOF, and `main` ends the voice loop normally.
- The decoder never clears the notes buffer between voices. Words of an earlier, longer Notes block stay behind it (`Decoder.Overwrite`). The bar rendering reads them only when the current Notes count is 0: notes_count then wraps to 2^32 − 1 (verify/decodehcint.c:228). With a count n ≥ 1, every accepted index and every rendered word lie below n − 1 (verify/decodehcint.c:323, 333), inside the current content.
- The decoder does not check for data after the fourth voice; only tweak does (`TrailingData`).
- NUL bytes in the -f input match the empty entry `upper[10]`. -f switches to upper case for them and writes frame 0212, which -a reads back as nothing (`Fiodec.NulMatchesCode10`).

**Model structure:**
- Tweak.TweakVoice: it stops before the voice gap. The `Tweak` loop writes the gap after it when a word follows (tweak/tweak.c:326), so the frames written are the same as in the C code.

## Findings

| source | as written | input that shows it | evidently intended | confidence | as-written member | corrected member |
|---|---|---|---|---|---|---|
| tweak/tweak.c:276 | the tempo argument is used only when `argc == 4`; with five arguments the tempo becomes −1 and no tempo word is rewritten | `tweak in out 120 30`: every tempo word, e.g. 0700144, is written unchanged | the usage line lists the tempo and then an optional gap length, so the tempo should be honoured when `argc >= 4` | not executed | Tweak.SettingsDropTempoExample | Tweak.IntendedHonoursTempo |

- `Tweak.SettingsOf` models the code as written, and `Tweak.SettingsDropTempo` proves the consequence for every input.
- `Tweak.TweakRunSpec` and `Tweak.TweakRun` run the program as written, on `Tweak.SettingsOf`: with five arguments the run has no tempo.
- `Tweak.IntendedSettingsOf` is the corrected handling, and `Tweak.IntendedTweakRunSpec` is the whole program on it: with five arguments the run keeps the tempo.
