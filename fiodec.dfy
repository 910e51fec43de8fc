/**
 * ascii2fiodec: the converter between ASCII text and FIODEC paper tape.
 *
 * FIODEC is a six-bit character code with two cases: code i prints
 * Code(UpperCase, i) after an upper-case shift frame and Code(LowerCase, i)
 * after a lower-case shift frame. On tape each code is punched with a seventh,
 * parity bit (weight 0200) chosen so that the frame has an odd number of
 * holes. The program has three modes:
 *   -a  FIODEC tape to ASCII text (DecodeAscii),
 *   -f  ASCII text to FIODEC tape (EncodeFiodec),
 *   dump: the 18-bit words of a binary tape (DumpWords).
 */
module Fiodec {
  import opened Word18
  import opened Outcomes
  import opened Tape

  /** Bytes of ASCII text, as getchar and putchar pass them. */
  type Byte = Frame

  const LowerShift: Frame := 0xBA      // 0272
  const UpperShift: Frame := 0xBC      // 0274
  const CarriageReturn: Frame := 0xBF  // 0277
  const SpaceFrame: Frame := 0x80      // 0200
  const TabFrame: Frame := 0x9E        // 0236
  const StopCode: Frame := 0x0B        // 013, written once at the end of -f output

  const NewLine: Byte := 10
  const Tab: Byte := 9
  const Space: Byte := 32

  /**
   * upper[]: the character (as a byte) each code prints in upper case, in
   * rows of eight codes; 0 marks a code that prints nothing.
   */
  const UpperRows: seq<seq<Byte>> := [
    [32, 34, 39, 123, 125, 124, 38, 60],    // space " ' { } | & <
    [62, 33, 0, 64, 0, 0, 0, 0],            // > ! - @
    [58, 63, 83, 84, 85, 86, 87, 88],       // : ? S T U V W X
    [89, 90, 0, 61, 0, 0, 9, 0],            // Y Z - = - - tab
    [95, 74, 75, 76, 77, 78, 79, 80],       // _ J K L M N O P
    [81, 82, 0, 0, 43, 93, 37, 91],         // Q R - - + ] % [
    [0, 65, 66, 67, 68, 69, 70, 71],        // - A B C D E F G
    [72, 73, 0, 35, 0, 8, 0, 0]]            // H I - # - backspace

  /** lower[]: the character each code prints in lower case. */
  const LowerRows: seq<seq<Byte>> := [
    [32, 49, 50, 51, 52, 53, 54, 55],       // space 1 2 3 4 5 6 7
    [56, 57, 0, 64, 0, 0, 0, 0],            // 8 9 - @
    [48, 47, 115, 116, 117, 118, 119, 120], // 0 / s t u v w x
    [121, 122, 0, 44, 0, 0, 9, 0],          // y z - , - - tab
    [59, 106, 107, 108, 109, 110, 111, 112], // ; j k l m n o p
    [113, 114, 0, 0, 45, 41, 126, 40],      // q r - - - ) ~ (
    [0, 97, 98, 99, 100, 101, 102, 103],    // - a b c d e f g
    [104, 105, 0, 46, 0, 8, 0, 0]]          // h i - . - backspace

  /** The variable uc of both conversion loops. */
  datatype Shift = LowerCase | UpperCase

  /** upper[i] or lower[i], as a byte (0: no character). */
  function Code(s: Shift, i: nat): (b: Byte)
    requires i < 64
  {
    if s == UpperCase then UpperRows[i / 8][i % 8] else LowerRows[i / 8][i % 8]
  }

  // ---------------------------------------------------------------------
  // Parity (putpar and the parity test of -a)
  // ---------------------------------------------------------------------

  /** The number of one bits of x. */
  function Ones(x: nat): (q: nat)
  {
    if x == 0 then 0 else x % 2 + Ones(x / 2)
  }

  /** The bit-counting loop shared by putpar and the -a loop. */
  method CountOnes(x: nat) returns (q: nat)
    ensures q == Ones(x)
  {
    var v := x;
    q := 0;
    while v != 0
      invariant q + Ones(v) == Ones(x)
      decreases v
    {
      if v % 2 == 1 {
        q := q + 1;
      }
      v := v / 2;
    }
  }

  /** A frame with an odd number of holes. */
  predicate OddParity(c: nat)
  {
    Ones(c) % 2 == 1
  }

  /** The frame putpar punches for ch: ch itself when its parity is odd, else ch + 0200 (putchar keeps eight bits). */
  function WithParity(ch: nat): (f: Frame)
    ensures ch < 128 ==> f == ch || f == ch + 0x80
  {
    (if OddParity(ch) then ch else ch + 0x80) % 256
  }

  /** putpar: the frame it writes. */
  method PutPar(ch: nat) returns (f: Frame)
    ensures f == WithParity(ch)
  {
    var q := CountOnes(ch);
    f := (if q % 2 == 1 then ch else ch + 0x80) % 256;
  }

  /** 2 to the power k. */
  function Pow2(k: nat): (p: nat)
  {
    if k == 0 then 1 else 2 * Pow2(k - 1)
  }

  /** Setting a bit above all the bits of x adds one hole. */
  lemma {:induction false} OnesAddHigh(x: nat, k: nat)
    requires x < Pow2(k)
    ensures Ones(x + Pow2(k)) == Ones(x) + 1
  {
    if k > 0 {
      var q := Pow2(k - 1);
      Halve(x, q);
      OnesAddHigh(x / 2, k - 1);
    }
  }

  /** Halving x + 2q drops the low bit of x and keeps q. */
  lemma Halve(x: nat, q: nat)
    ensures (x + 2 * q) % 2 == x % 2 && (x + 2 * q) / 2 == x / 2 + q
  {
  }

  /** putpar of a seven-bit character gives an odd-parity frame that still carries the character. */
  lemma WithParityOdd(ch: nat)
    requires ch < 128
    ensures OddParity(WithParity(ch))
    ensures WithParity(ch) % 128 == ch
  {
    if OddParity(ch) {
      SevenBits(ch, ch);
    } else {
      SevenBits(ch, ch + 128);
      OnesAddHigh(ch, 7);
      OneMoreHole(Ones(ch), Ones(ch + 128));
    }
  }

  /** Adding one hole to an even count makes it odd. */
  lemma OneMoreHole(n: nat, n': nat)
    requires n % 2 != 1 && n' == n + 1
    ensures n' % 2 == 1
  {
  }

  /** A seven-bit character with or without bit 0200 fits a frame and keeps its low seven bits. */
  lemma SevenBits(ch: nat, f: nat)
    requires ch < 128 && (f == ch || f == ch + 128)
    ensures f % 256 == f && f % 128 == ch
  {
  }

  /** The frame putpar writes for a code: bit 0100 clear, low six bits the code, odd parity. */
  lemma ParityFrame(i: nat)
    requires i < 64
    ensures var f := WithParity(i);
      OddParity(f) && (f / 64) % 2 == 0 && f % 64 == i && f % 128 == i
  {
    WithParityOdd(i);
  }

  // ---------------------------------------------------------------------
  // -a: FIODEC tape to ASCII
  // ---------------------------------------------------------------------

  /** The case after one frame and what it prints. */
  datatype AsciiState = AsciiState(shift: Shift, out: seq<Byte>)

  /** One frame of the -a loop. */
  function DecodeFrame(s: Shift, c: Frame): (d: AsciiState)
    ensures |d.out| <= 1
    ensures 0 !in d.out
    ensures d.shift != s ==> c in {LowerShift, UpperShift}
    ensures d.out != [] && c != CarriageReturn ==>
      OddParity(c) && (c / 64) % 2 == 0 && d.out == [Code(s, c % 64)]
  {
    if c == LowerShift then AsciiState(LowerCase, [])
    else if c == UpperShift then AsciiState(UpperCase, [])
    else if c == CarriageReturn then AsciiState(s, [NewLine])
    else if !OddParity(c) then AsciiState(s, [])     // a parity error: the frame is dropped
    else if (c / 64) % 2 == 1 then AsciiState(s, []) // c & 0100: not a character
    else if Code(s, c % 64) == 0 then AsciiState(s, [])
    else AsciiState(s, [Code(s, c % 64)])
  }

  /** The text the -a loop prints for the frames fs, starting in case s. */
  function DecodeFrom(s: Shift, fs: seq<Frame>): (text: seq<Byte>)
    ensures |text| <= |fs|
    ensures 0 !in text
    decreases |fs|
  {
    if fs == [] then []
    else
      var d := DecodeFrame(s, fs[0]);
      d.out + DecodeFrom(d.shift, fs[1..])
  }

  /** The body of the -a loop: the switch on one frame. */
  method DecodeStep(uc: Shift, c: Frame) returns (uc': Shift, out: seq<Byte>)
    ensures AsciiState(uc', out) == DecodeFrame(uc, c)
  {
    uc', out := uc, [];
    if c == LowerShift {
      uc' := LowerCase;
    } else if c == UpperShift {
      uc' := UpperCase;
    } else if c == CarriageReturn {
      out := [NewLine];
    } else {
      var nco := CountOnes(c);
      if nco % 2 == 1 && (c / 64) % 2 == 0 {
        var dot := Code(uc, c % 64);
        if dot != 0 {
          out := [dot];
        }
      }
    }
  }

  /** The -a mode: it starts in lower case (uc = 0). */
  method DecodeAscii(tape: seq<Frame>) returns (text: seq<Byte>)
    ensures text == DecodeFrom(LowerCase, tape)
  {
    var uc := LowerCase;
    text := [];
    var k := 0;
    while k < |tape|
      invariant 0 <= k <= |tape|
      invariant DecodeFrom(LowerCase, tape) == text + DecodeFrom(uc, tape[k..])
    {
      var uc', out := DecodeStep(uc, tape[k]);
      assert DecodeFrom(uc, tape[k..]) == out + DecodeFrom(uc', tape[k + 1..]) by {
        assert tape[k..][1..] == tape[k + 1..];
      }
      text, uc := text + out, uc';
      k := k + 1;
    }
  }

  // ---------------------------------------------------------------------
  // -f: ASCII to FIODEC tape
  // ---------------------------------------------------------------------

  /** The code the -f search settles on, and the case its table belongs to. */
  datatype Match = Match(index: nat, shift: Shift)

  /** Neither table holds c at code j. */
  predicate Missing(c: Byte, j: nat)
    requires j < 64
  {
    Code(UpperCase, j) != c && Code(LowerCase, j) != c
  }

  /**
   * The -f search from code i on: the first code whose upper-case character
   * is c, or else whose lower-case character is c (upper wins at the same
   * code).
   */
  function FirstMatch(c: Byte, i: nat): (r: Option<Match>)
    requires i <= 64
    ensures r.Some? ==> i <= r.value.index < 64 && Code(r.value.shift, r.value.index) == c
    decreases 64 - i
  {
    if i == 64 then None
    else if Missing(c, i) then FirstMatch(c, i + 1)
    else if Code(UpperCase, i) == c then Some(Match(i, UpperCase))
    else Some(Match(i, LowerCase))
  }

  /** No code from i up to n holds c in either table. */
  predicate MissingFrom(c: Byte, i: nat, n: nat)
    requires i <= n <= 64
    decreases n - i
  {
    i == n || (Missing(c, i) && MissingFrom(c, i + 1, n))
  }

  /** The search fails only when no code from i on holds c in either table. */
  lemma {:induction false} FirstMatchNone(c: Byte, i: nat)
    requires i <= 64 && FirstMatch(c, i).None?
    ensures MissingFrom(c, i, 64)
    decreases 64 - i
  {
    if i < 64 {
      FirstMatchNone(c, i + 1);
    }
  }

  /** The search finds the first code that holds c in either table. */
  lemma {:induction false} FirstMatchFirst(c: Byte, i: nat, m: Match)
    requires i <= 64 && FirstMatch(c, i) == Some(m)
    ensures m.index <= 64 && MissingFrom(c, i, m.index)
    decreases 64 - i
  {
    if i < m.index {
      FirstMatchFirst(c, i + 1, m);
    }
  }

  /** NUL is found at code 10, the first empty entry of the upper-case table; its frame prints nothing. */
  lemma NulMatchesCode10()
    ensures FirstMatch(0, 0) == Some(Match(10, UpperCase))
  {
    assert FirstMatch(0, 10) == Some(Match(10, UpperCase));
    assert FirstMatch(0, 9) == FirstMatch(0, 10);
    assert FirstMatch(0, 8) == FirstMatch(0, 9);
    assert FirstMatch(0, 7) == FirstMatch(0, 8);
    assert FirstMatch(0, 6) == FirstMatch(0, 7);
    assert FirstMatch(0, 5) == FirstMatch(0, 6);
    assert FirstMatch(0, 4) == FirstMatch(0, 5);
    assert FirstMatch(0, 3) == FirstMatch(0, 4);
    assert FirstMatch(0, 2) == FirstMatch(0, 3);
    assert FirstMatch(0, 1) == FirstMatch(0, 2);
  }

  /** At the code it finds, the search prefers the upper-case table. */
  lemma {:induction false} FirstMatchPrefersUpper(c: Byte, i: nat, m: Match)
    requires i <= 64 && FirstMatch(c, i) == Some(m) && m.shift == LowerCase
    ensures Code(UpperCase, m.index) != c
    decreases 64 - i
  {
    if Missing(c, i) {
      FirstMatchPrefersUpper(c, i + 1, m);
    }
  }

  /** The inner for loop of -f (the source's bound of 100 read past both 64-entry tables; here it stops at 64). */
  method FindCode(c: Byte) returns (r: Option<Match>)
    ensures r == FirstMatch(c, 0)
  {
    var i := 0;
    while i < 64
      invariant 0 <= i <= 64
      invariant FirstMatch(c, 0) == FirstMatch(c, i)
    {
      if c == Code(UpperCase, i) {
        return Some(Match(i, UpperCase));
      }
      if c == Code(LowerCase, i) {
        return Some(Match(i, LowerCase));
      }
      i := i + 1;
    }
    return None;
  }

  /** The frame that selects case s. */
  function ShiftFrame(s: Shift): (f: Frame)
  {
    if s == UpperCase then UpperShift else LowerShift
  }

  /** The case after a character and the frames written for it. */
  datatype Encoded = Encoded(shift: Shift, out: seq<Frame>)

  /**
   * One character of the -f loop. A shift code is written, ahead of the
   * character's own frame, exactly when the case changes.
   */
  function EncodeChar(s: Shift, c: Byte): (e: Encoded)
    ensures |e.out| <= 2
    ensures |e.out| == 2 <==> e.shift != s
    ensures e.shift != s ==> e.out[0] == ShiftFrame(e.shift)
  {
    if c == Space then Encoded(s, [SpaceFrame])
    else if c == Tab then Encoded(s, [TabFrame])
    else if c == NewLine then Encoded(s, [CarriageReturn])
    else
      match FirstMatch(c, 0)
      case None => Encoded(s, [])
      case Some(m) =>
        Encoded(m.shift, (if m.shift == s then [] else [ShiftFrame(m.shift)]) + [WithParity(m.index)])
  }

  /** The frames -f writes for text, starting in case s, and the case it ends in. */
  function EncodeFrom(s: Shift, text: seq<Byte>): (e: Encoded)
    ensures |e.out| <= 2 * |text|
    decreases |text|
  {
    if text == [] then Encoded(s, [])
    else
      var first := EncodeChar(s, text[0]);
      var rest := EncodeFrom(first.shift, text[1..]);
      Encoded(rest.shift, first.out + rest.out)
  }

  /** The whole -f output: it starts in lower case and ends with the stop code 013. */
  function EncodeText(text: seq<Byte>): (f: seq<Frame>)
    ensures |f| >= 1 && f[|f| - 1] == StopCode
  {
    EncodeFrom(LowerCase, text).out + [StopCode]
  }

  /** The body of the -f loop: the frames written for one character. */
  method EncodeStep(uc: Shift, c: Byte) returns (uc': Shift, out: seq<Frame>)
    ensures Encoded(uc', out) == EncodeChar(uc, c)
  {
    uc', out := uc, [];
    if c == Space {
      out := [SpaceFrame];
    } else if c == Tab {
      out := [TabFrame];
    } else if c == NewLine {
      out := [CarriageReturn];
    } else {
      var found := FindCode(c);
      if found.Some? {
        var m := found.value;
        if m.shift != uc {
          out := [ShiftFrame(m.shift)];
          uc' := m.shift;
        }
        var f := PutPar(m.index);
        out := out + [f];
      }
    }
  }

  /** EncodeFrom after its first character. */
  lemma EncodeFromFirst(s: Shift, text: seq<Byte>, first: Encoded)
    requires text != [] && first == EncodeChar(s, text[0])
    ensures EncodeFrom(s, text).out == first.out + EncodeFrom(first.shift, text[1..]).out
    ensures EncodeFrom(s, text).shift == EncodeFrom(first.shift, text[1..]).shift
  {
  }

  /** EncodeFromFirst at position k of the text. */
  lemma EncodeFromAt(s: Shift, text: seq<Byte>, k: nat, first: Encoded)
    requires k < |text| && first == EncodeChar(s, text[k])
    ensures EncodeFrom(s, text[k..]).out == first.out + EncodeFrom(first.shift, text[k + 1..]).out
  {
    assert text[k..][1..] == text[k + 1..];
    EncodeFromFirst(s, text[k..], first);
  }

  /** The -f mode. */
  method EncodeFiodec(text: seq<Byte>) returns (tape: seq<Frame>)
    ensures tape == EncodeText(text)
  {
    var uc := LowerCase;
    tape := [];
    var k := 0;
    while k < |text|
      invariant 0 <= k <= |text|
      invariant EncodeFrom(LowerCase, text).out == tape + EncodeFrom(uc, text[k..]).out
    {
      var uc', out := EncodeStep(uc, text[k]);
      EncodeFromAt(uc, text, k, Encoded(uc', out));
      assert tape + EncodeFrom(uc, text[k..]).out == (tape + out) + EncodeFrom(uc', text[k + 1..]).out;
      tape, uc := tape + out, uc';
      k := k + 1;
    }
    assert text[k..] == [];
    tape := tape + [StopCode];
  }

  // ---------------------------------------------------------------------
  // Round trip: -a reads back what -f wrote
  // ---------------------------------------------------------------------

  /** A character that survives -f followed by -a: blank space, or a printing character of either table. */
  predicate Printable(c: Byte)
  {
    c == Space || c == Tab || c == NewLine || (c != 0 && FirstMatch(c, 0).Some?)
  }

  /** The printable characters of text, in order. */
  function PrintableOf(text: seq<Byte>): (r: seq<Byte>)
    ensures |r| <= |text|
    ensures forall k :: 0 <= k < |r| ==> Printable(r[k])
  {
    if text == [] then []
    else (if Printable(text[0]) then [text[0]] else []) + PrintableOf(text[1..])
  }

  /**
   * A code's frame decodes to that code's character: the shift and
   * carriage-return frames are putpar of codes 58, 60 and 63, whose table
   * entries are empty, so no other code's frame is mistaken for them.
   */
  lemma DecodeCodeFrame(s: Shift, i: nat)
    requires i < 64 && Code(s, i) != 0
    ensures DecodeFrame(s, WithParity(i)) == AsciiState(s, [Code(s, i)])
  {
    var f := WithParity(i);
    ParityFrame(i);
    assert i != 58 && i != 60 && i != 63 by {
      assert Code(s, 58) == 0 && Code(s, 60) == 0 && Code(s, 63) == 0;
    }
    NotControlFrame(f, i);
  }

  /** The shift and carriage-return frames carry codes 58, 60 and 63 in their low seven bits. */
  lemma NotControlFrame(f: Frame, i: nat)
    requires f % 128 == i && i != 58 && i != 60 && i != 63
    ensures f != LowerShift && f != UpperShift && f != CarriageReturn
  {
  }

  /** A frame that is not a shift or carriage return, with odd parity and bit 0100 clear, prints its code. */
  lemma DataFrameDecodes(s: Shift, c: Frame)
    requires c != LowerShift && c != UpperShift && c != CarriageReturn
    requires OddParity(c) && (c / 64) % 2 == 0
    ensures DecodeFrame(s, c) == AsciiState(s, if Code(s, c % 64) == 0 then [] else [Code(s, c % 64)])
  {
  }

  /** -f writes 0200 for a space; -a prints it as code 0, a space in either case. */
  lemma SpaceFrameDecodes(s: Shift)
    ensures DecodeFrame(s, SpaceFrame) == AsciiState(s, [Space])
  {
    OnesAddHigh(0, 7);
    BlankCodes(s);
    DataFrameDecodes(s, SpaceFrame);
  }

  /** -f writes 0236 for a tab; -a prints it as code 036, a tab in either case. */
  lemma TabFrameDecodes(s: Shift)
    ensures DecodeFrame(s, TabFrame) == AsciiState(s, [Tab])
  {
    TabFrameParity();
    BlankCodes(s);
    DataFrameDecodes(s, TabFrame);
  }

  /** 0236 has five holes. */
  lemma TabFrameParity()
    ensures OddParity(TabFrame) && (TabFrame / 64) % 2 == 0 && TabFrame % 64 == 30
  {
    OnesAddHigh(0, 1);
    OnesAddHigh(2, 2);
    OnesAddHigh(6, 3);
    OnesAddHigh(14, 4);
    OnesAddHigh(30, 7);
  }

  /** Code 0 is a space and code 036 a tab in both cases. */
  lemma BlankCodes(s: Shift)
    ensures Code(s, 0) == Space && Code(s, 30) == Tab
  {
    assert UpperRows[0][0] == LowerRows[0][0] == Space;
    assert UpperRows[3][6] == LowerRows[3][6] == Tab;
  }

  /** The stop code 013 that ends -f output has odd parity; -a prints it as code 11, '@' in either case. */
  lemma StopCodeDecodes(s: Shift)
    ensures DecodeFrame(s, StopCode) == AsciiState(s, ['@' as int])
  {
    assert Ones(11) == 3 by {
      assert Ones(1) == 1 && Ones(2) == 1 && Ones(5) == 2;
    }
    DataFrameDecodes(s, StopCode);
  }

  /**
   * '@' is upper[11], found before lower[11], so -f writes it as code 11,
   * the stop code 013, shifting to upper case first when in lower case.
   */
  lemma AtSignEncodes(s: Shift)
    ensures EncodeChar(s, '@' as int) == Encoded(UpperCase, (if s == LowerCase then [UpperShift] else []) + [StopCode])
  {
    var at: Byte := '@' as int;
    assert FirstMatch(at, 11) == Some(Match(11, UpperCase));
    assert FirstMatch(at, 0) == FirstMatch(at, 1) == FirstMatch(at, 2) == FirstMatch(at, 3) == FirstMatch(at, 4) == FirstMatch(at, 5);
    assert FirstMatch(at, 5) == FirstMatch(at, 6) == FirstMatch(at, 7) == FirstMatch(at, 8) == FirstMatch(at, 9) == FirstMatch(at, 10) == FirstMatch(at, 11);
    assert WithParity(11) == StopCode by {
      assert Ones(11) == 3 by {
        assert Ones(1) == 1 && Ones(2) == 1 && Ones(5) == 2;
      }
    }
  }

  /** DecodeFrom after its first frame. */
  lemma DecodeFromFirst(s: Shift, f: Frame, rest: seq<Frame>, d: AsciiState)
    requires d == DecodeFrame(s, f)
    ensures DecodeFrom(s, [f] + rest) == d.out + DecodeFrom(d.shift, rest)
  {
    assert ([f] + rest)[1..] == rest;
  }

  /** A shift frame changes the case and prints nothing. */
  lemma ShiftFrameDecodes(s: Shift, t: Shift)
    ensures DecodeFrame(s, ShiftFrame(t)) == AsciiState(t, [])
  {
  }

  /** The frame -f writes for the code it found for c: -a prints c, unless c is NUL, found at the empty code 10 or before. */
  lemma MatchedFrameDecodes(t: Shift, i: nat, c: Byte)
    requires i < 64 && Code(t, i) == c && (c == 0 ==> i <= 10)
    ensures DecodeFrame(t, WithParity(i)) == AsciiState(t, if c == 0 then [] else [c])
  {
    if c == 0 {
      var f := WithParity(i);
      ParityFrame(i);
      NotControlFrame(f, i);
    } else {
      DecodeCodeFrame(t, i);
    }
  }

  /** What -f wrote for a character it found in a table, -a reads back. */
  lemma DecodeMatched(s: Shift, c: Byte, m: Match, rest: seq<Frame>, e: Encoded)
    requires m.index < 64 && Code(m.shift, m.index) == c && (c == 0 ==> m.index <= 10)
    requires e == Encoded(m.shift, (if m.shift == s then [] else [ShiftFrame(m.shift)]) + [WithParity(m.index)])
    ensures DecodeFrom(s, e.out + rest) == (if c == 0 then [] else [c]) + DecodeFrom(m.shift, rest)
  {
    var f := WithParity(m.index);
    MatchedFrameDecodes(m.shift, m.index, c);
    DecodeFromFirst(m.shift, f, rest, DecodeFrame(m.shift, f));
    if m.shift != s {
      assert e.out + rest == [ShiftFrame(m.shift)] + ([f] + rest);
      ShiftThenFrames(s, m.shift, [f] + rest);
    } else {
      assert e.out + rest == [f] + rest;
    }
  }

  /** A shift frame in front of a tape makes -a read that tape in the new case. */
  lemma ShiftThenFrames(s: Shift, t: Shift, fs: seq<Frame>)
    ensures DecodeFrom(s, [ShiftFrame(t)] + fs) == DecodeFrom(t, fs)
  {
    ShiftFrameDecodes(s, t);
    DecodeFromFirst(s, ShiftFrame(t), fs, AsciiState(t, []));
  }

  /** What -f wrote for one character, -a reads back as that character if it is printable. */
  lemma DecodeEncodeChar(s: Shift, c: Byte, rest: seq<Frame>, e: Encoded)
    requires e == EncodeChar(s, c)
    ensures DecodeFrom(s, e.out + rest) == (if Printable(c) then [c] else []) + DecodeFrom(e.shift, rest)
  {
    if c == Space {
      SpaceFrameDecodes(s);
      DecodeFromFirst(s, SpaceFrame, rest, AsciiState(s, [Space]));
    } else if c == Tab {
      TabFrameDecodes(s);
      DecodeFromFirst(s, TabFrame, rest, AsciiState(s, [Tab]));
    } else if c == NewLine {
      DecodeFromFirst(s, CarriageReturn, rest, AsciiState(s, [NewLine]));
    } else if FirstMatch(c, 0).Some? {
      var m := FirstMatch(c, 0).value;
      // NUL matches the empty entry of code 10 first
      assert c == 0 ==> m.index <= 10 by {
        if c == 0 {
          NulMatchesCode10();
        }
      }
      assert e == Encoded(m.shift, (if m.shift == s then [] else [ShiftFrame(m.shift)]) + [WithParity(m.index)]);
      DecodeMatched(s, c, m, rest, e);
      assert Printable(c) <==> c != 0;
    } else {
      assert e == Encoded(s, []) && !Printable(c);
      assert e.out + rest == rest;
    }
  }

  /** PrintableOf after its first character. */
  lemma PrintableOfFirst(text: seq<Byte>)
    requires text != []
    ensures PrintableOf(text) == (if Printable(text[0]) then [text[0]] else []) + PrintableOf(text[1..])
  {
  }

  /** -a reads back what -f wrote for a text, followed by anything. */
  lemma {:induction false} DecodeEncodeFrom(s: Shift, text: seq<Byte>, rest: seq<Frame>, e: Encoded)
    requires e == EncodeFrom(s, text)
    ensures DecodeFrom(s, e.out + rest) == PrintableOf(text) + DecodeFrom(e.shift, rest)
    decreases |text|
  {
    if text != [] {
      var first := EncodeChar(s, text[0]);
      var tail := EncodeFrom(first.shift, text[1..]);
      EncodeFromFirst(s, text, first);
      DecodeEncodeChar(s, text[0], tail.out + rest, first);
      DecodeEncodeFrom(first.shift, text[1..], rest, tail);
      PrintableOfFirst(text);
      DecodeJoin(s, e, first, tail, rest, if Printable(text[0]) then [text[0]] else [], PrintableOf(text[1..]));
    } else {
      assert e.out + rest == rest;
    }
  }

  /** The step of DecodeEncodeFrom: what one character and the rest of the text decode to, joined. */
  lemma DecodeJoin(s: Shift, e: Encoded, first: Encoded, tail: Encoded, rest: seq<Frame>, kept: seq<Byte>, later: seq<Byte>)
    requires e.out == first.out + tail.out && e.shift == tail.shift
    requires DecodeFrom(s, first.out + (tail.out + rest)) == kept + DecodeFrom(first.shift, tail.out + rest)
    requires DecodeFrom(first.shift, tail.out + rest) == later + DecodeFrom(tail.shift, rest)
    ensures DecodeFrom(s, e.out + rest) == (kept + later) + DecodeFrom(e.shift, rest)
  {
    ConcatAssoc(first.out, tail.out, rest);
    ConcatAssoc(kept, later, DecodeFrom(tail.shift, rest));
  }

  /**
   * Converting text to FIODEC and back gives its printable characters,
   * followed by '@': the stop code 013 has odd parity and prints as
   * code 11, which is '@' in both cases.
   */
  lemma RoundTrip(text: seq<Byte>)
    ensures DecodeFrom(LowerCase, EncodeText(text)) == PrintableOf(text) + ['@' as int]
  {
    var e := EncodeFrom(LowerCase, text);
    DecodeEncodeFrom(LowerCase, text, [StopCode], e);
    StopCodeDecodes(e.shift);
    assert [StopCode][1..] == [];
    assert DecodeFrom(e.shift, [StopCode]) == ['@' as int];
  }

  // ---------------------------------------------------------------------
  // Dump mode: binary frames assembled into 18-bit words
  // ---------------------------------------------------------------------

  /** A frame the dump loop assembles: bit 0200 set and bit 0100 clear. */
  predicate IsDigitFrame(c: Frame)
  {
    c >= 0x80 && (c / 64) % 2 == 0
  }

  /** The six data bits a frame contributes, if any. */
  function DigitOf(c: Frame): (d: seq<nat>)
    ensures |d| <= 1 && (d != [] ==> d[0] < 64 && d[0] == c % 64)
  {
    if IsDigitFrame(c) then [c - 0x80] else []
  }

  /** The data digits of a tape, in order; blank frames and frames with bit 0100 contribute none. */
  function Digits(fs: seq<Frame>): (ds: seq<nat>)
    ensures |ds| <= |fs|
    ensures forall k :: 0 <= k < |ds| ==> ds[k] < 64
  {
    if fs == [] then [] else Digits(fs[..|fs| - 1]) + DigitOf(fs[|fs| - 1])
  }

  /** The digits of ds read most significant first. */
  function Value(ds: seq<nat>): (v: nat)
  {
    if ds == [] then 0 else Value(ds[..|ds| - 1]) * 64 + ds[|ds| - 1]
  }

  /** Every complete group of three digits as one word; a trailing partial group is dropped. */
  function Groups(ds: seq<nat>): (ws: seq<nat>)
    ensures |ws| == |ds| / 3
  {
    if |ds| < 3 then [] else [ds[0] * 4096 + ds[1] * 64 + ds[2]] + Groups(ds[3..])
  }

  /** Six-bit digits group into 18-bit words. */
  lemma {:induction false} GroupsAreWords(ds: seq<nat>)
    requires forall d :: d in ds ==> d < 64
    ensures forall w :: w in Groups(ds) ==> IsWord(w)
  {
    if |ds| >= 3 {
      assert ds[0] in ds && ds[1] in ds && ds[2] in ds;
      GroupFits(ds[0], ds[1], ds[2]);
      assert forall d :: d in ds[3..] ==> d in ds;
      GroupsAreWords(ds[3..]);
    }
  }

  /** Three six-bit digits make an 18-bit word. */
  lemma GroupFits(a: nat, b: nat, c: nat)
    requires a < 64 && b < 64 && c < 64
    ensures IsWord(a * 4096 + b * 64 + c)
  {
    assert a * 4096 <= 63 * 4096;
    assert b * 64 <= 63 * 64;
  }

  /** A digit that completes no group leaves the words unchanged. */
  lemma {:induction false} GroupsSnocPartial(ds: seq<nat>, d: nat)
    requires |ds| % 3 != 2
    ensures Groups(ds + [d]) == Groups(ds)
  {
    var t := ds + [d];
    if |ds| >= 3 {
      assert t[3..] == ds[3..] + [d];
      DropGroup(|ds|, |ds[3..]|);
      GroupsSnocPartial(ds[3..], d);
      assert t[0] == ds[0] && t[1] == ds[1] && t[2] == ds[2];
      assert Groups(t) == [ds[0] * 4096 + ds[1] * 64 + ds[2]] + Groups(ds[3..] + [d]);
    } else {
      assert |t| < 3;
    }
  }

  /** Dropping a group of three keeps the position within a group. */
  lemma DropGroup(n: nat, n': nat)
    requires n >= 3 && n' == n - 3
    ensures n' % 3 == n % 3
  {
  }

  /** Value reads one more digit as the least significant. */
  lemma ValueSnoc(x: seq<nat>, d: nat)
    ensures Value(x + [d]) == Value(x) * 64 + d
  {
    assert (x + [d])[..|x|] == x;
  }

  /** A digit that completes a group adds that group's word: the two digits before it, then it, most significant first. */
  lemma {:induction false} GroupsSnocFull(ds: seq<nat>, d: nat, w: nat)
    requires |ds| % 3 == 2 && w == Value(ds[|ds| - 2..]) * 64 + d
    ensures Groups(ds + [d]) == Groups(ds) + [w]
  {
    if |ds| >= 3 {
      var t := ds + [d];
      assert t[3..] == ds[3..] + [d];
      assert ds[3..][|ds| - 5..] == ds[|ds| - 2..];
      DropGroup(|ds|, |ds[3..]|);
      GroupsSnocFull(ds[3..], d, w);
      assert t[0] == ds[0] && t[1] == ds[1] && t[2] == ds[2];
      assert Groups(t) == [ds[0] * 4096 + ds[1] * 64 + ds[2]] + Groups(ds[3..] + [d]);
    } else {
      assert ds == [ds[0], ds[1]];
      FirstGroup(ds[0], ds[1], d, w);
    }
  }

  /** Three digits make exactly one word. */
  lemma FirstGroup(a: nat, b: nat, d: nat, w: nat)
    requires w == Value([a, b]) * 64 + d
    ensures Groups([a, b] + [d]) == [w]
  {
    var t := [a, b] + [d];
    ValueSnoc([], a);
    ValueSnoc([a], b);
    assert [a] + [b] == [a, b];
    assert w == a * 4096 + b * 64 + d;
    assert t[0] == a && t[1] == b && t[2] == d && t[3..] == [];
    assert Groups(t) == [t[0] * 4096 + t[1] * 64 + t[2]] + Groups(t[3..]);
  }

  /** The digits of a tape one frame longer. */
  lemma DigitsSnoc(tape: seq<Frame>, k: nat)
    requires k < |tape|
    ensures Digits(tape[..k + 1]) == Digits(tape[..k]) + DigitOf(tape[k])
  {
    assert tape[..k + 1][..k] == tape[..k];
  }

  /**
   * The dump loop's state after the digits ds: cyc digits of a partial
   * word, their value val, and the complete words.
   */
  predicate DumpState(ds: seq<nat>, cyc: nat, val: nat, words: seq<nat>)
  {
    cyc == |ds| % 3 && words == Groups(ds) && val == Value(ds[|ds| - cyc..])
  }

  /**
   * One frame of the dump loop, for the words assembled from the digits ds
   * read so far: val = (val << 6) | (c - 0200) is val * 64 + digit, the low
   * six bits of val << 6 being clear; after the third digit the word is
   * complete and val and cyc start again.
   */
  method DumpFrame(ghost ds: seq<nat>, cyc: nat, val: nat, words: seq<nat>, c: Frame, ghost ds': seq<nat>)
    returns (cyc': nat, val': nat, words': seq<nat>)
    requires DumpState(ds, cyc, val, words)
    requires ds' == ds + DigitOf(c)
    ensures DumpState(ds', cyc', val', words')
  {
    cyc', val', words' := cyc, val, words;
    if c >= 0x80 && (c / 64) % 2 == 0 {
      var d: nat := c - 0x80;
      assert DigitOf(c) == [d];
      NextLength(|ds|, |ds'|, cyc);
      if cyc == 2 {
        GroupsSnocFull(ds, d, val * 64 + d);
        words' := words + [val * 64 + d];
        cyc', val' := 0, 0;
        assert ds'[|ds'| - cyc'..] == [];
      } else {
        GroupsSnocPartial(ds, d);
        ValueSnocTail(ds, d, cyc, ds');
        cyc', val' := cyc + 1, val * 64 + d;
      }
    } else {
      assert DigitOf(c) == [];
      assert ds' == ds;
    }
  }

  /** One more digit moves the position within a group of three along by one. */
  lemma NextLength(n: nat, n': nat, cyc: nat)
    requires n % 3 == cyc && n' == n + 1
    ensures n' % 3 == (cyc + 1) % 3
  {
  }

  /** The partial word's value after one more digit. */
  lemma ValueSnocTail(ds: seq<nat>, d: nat, cyc: nat, ds': seq<nat>)
    requires cyc <= |ds| && ds' == ds + [d]
    ensures Value(ds'[|ds'| - (cyc + 1)..]) == Value(ds[|ds| - cyc..]) * 64 + d
  {
    assert ds'[|ds'| - (cyc + 1)..] == ds[|ds| - cyc..] + [d];
    ValueSnoc(ds[|ds| - cyc..], d);
  }

  /** The dump mode's words: every three data frames make one word; blank frames print as dots and break nothing. */
  method DumpWords(tape: seq<Frame>) returns (words: seq<nat>)
    ensures words == Groups(Digits(tape))
  {
    var cyc: nat, val: nat := 0, 0;
    words := [];
    var k := 0;
    ghost var ds: seq<nat> := [];
    while k < |tape|
      invariant 0 <= k <= |tape|
      invariant ds == Digits(tape[..k])
      invariant DumpState(ds, cyc, val, words)
    {
      DigitsSnoc(tape, k);
      cyc, val, words := DumpFrame(ds, cyc, val, words, tape[k], ds + DigitOf(tape[k]));
      ds := ds + DigitOf(tape[k]);
      k := k + 1;
    }
    assert tape[..|tape|] == tape;
    assert words == Groups(ds);
  }

  /** Digits distribute over concatenation. */
  lemma {:induction false} DigitsAppend(a: seq<Frame>, b: seq<Frame>)
    ensures Digits(a + b) == Digits(a) + Digits(b)
    decreases |b|
  {
    if b != [] {
      var b' := b[..|b| - 1];
      assert (a + b)[..|a + b| - 1] == a + b';
      assert (a + b)[|a + b| - 1] == b[|b| - 1];
      DigitsAppend(a, b');
      ConcatAssoc(Digits(a), Digits(b'), DigitOf(b[|b| - 1]));
    } else {
      assert a + b == a;
    }
  }

  /** Words of a digit string that starts with whole groups. */
  lemma {:induction false} GroupsAppend(a: seq<nat>, b: seq<nat>)
    requires |a| % 3 == 0
    ensures Groups(a + b) == Groups(a) + Groups(b)
    decreases |a|
  {
    if a != [] {
      assert (a + b)[3..] == a[3..] + b;
      assert (a + b)[0] == a[0] && (a + b)[1] == a[1] && (a + b)[2] == a[2];
      GroupsAppend(a[3..], b);
      ConcatAssoc([a[0] * 4096 + a[1] * 64 + a[2]], Groups(a[3..]), Groups(b));
    } else {
      assert a + b == b;
    }
  }

  /** Blank frames contribute no digits. */
  lemma {:induction false} DigitsOfBlanks(g: int)
    ensures Digits(Blanks(g)) == []
    decreases if g < 0 then 0 else g
  {
    if g > 0 {
      assert Blanks(g)[..g - 1] == Blanks(g - 1);
      DigitsOfBlanks(g - 1);
    }
  }

  /** A frame ppb punches contributes its six data bits. */
  lemma DigitOfFrame(w: nat, j: nat)
    requires j < 3
    ensures DigitOf(FrameOf(w, j)) == [Low6(FrameOf(w, j))]
  {
    var r := (w / Scale(2 - j)) % 64;
    assert FrameOf(w, j) == 0x80 + r;
    LowOfFrame(w / Scale(2 - j));
    Split(0x80 + r, 64, 2, r);
  }

  /** The three frames ppb writes for a word are its three digits, most significant first. */
  lemma DigitsOfPpb(w: nat)
    requires IsWord(w)
    ensures Groups(Digits(Ppb(w))) == [w]
  {
    var f := Ppb(w);
    PpbFrames(w);
    DigitOfFrame(w, 0);
    DigitOfFrame(w, 1);
    DigitOfFrame(w, 2);
    var x, y, z := Low6(f[0]), Low6(f[1]), Low6(f[2]);
    assert Digits(f[..1]) == [x] by {
      assert f[..1][..0] == [];
    }
    assert Digits(f[..2]) == [x, y] by {
      assert f[..2][..1] == f[..1];
    }
    assert Digits(f) == [x, y, z] by {
      assert f[..2] == f[..|f| - 1];
    }
    assert [x, y, z][3..] == [];
  }

  /** The dump of words written by ppb gives the words back. */
  lemma {:induction false} DumpEncoded(ws: seq<nat>)
    requires AllWords(ws)
    ensures |Digits(EncodeWords(ws))| == 3 * |ws|
    ensures Groups(Digits(EncodeWords(ws))) == ws
    decreases |ws|
  {
    if ws != [] {
      var init, w := ws[..|ws| - 1], ws[|ws| - 1];
      assert ws == init + [w];
      DumpEncoded(init);
      EncodeWordsSnoc(init, w);
      DigitsAppend(EncodeWords(init), Ppb(w));
      DigitsOfPpb(w);
      GroupsAppend(Digits(EncodeWords(init)), Digits(Ppb(w)));
    }
  }

  /** A leader of blank frames does not disturb the dump. */
  lemma DumpAfterLeader(g: int, ws: seq<nat>)
    requires AllWords(ws)
    ensures Groups(Digits(Blanks(g) + EncodeWords(ws))) == ws
  {
    DigitsAppend(Blanks(g), EncodeWords(ws));
    DigitsOfBlanks(g);
    DumpEncoded(ws);
    assert [] + Digits(EncodeWords(ws)) == Digits(EncodeWords(ws));
  }
}
