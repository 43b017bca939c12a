/** build.rs: compiles the bitmap font source into the text of the `LATIN1_FONT` table.
    The source holds one `STARTCHAR ... ENDCHAR` block per glyph whose bitmap rows are
    written with `.` for a clear and `@` for a set pixel; every bitmap row inside a
    block becomes one `0b...,` literal, most significant bit first. Reading the source
    file and writing the generated file are left out: the input is the sequence of
    lines read, the output the sequence of lines written. */
module FontCompiler {
  import opened Words
  import opened Results
  import opened Glyph

  /** The `panic!("Invalid character: ...")` of the row encoder. */
  datatype CompileError = InvalidCharacter(c: char)

  const HEADER: string := "pub const LATIN1_FONT: [[u16; 18]; 221] = ["
  const FOOTER: string := "];"
  const OPEN: string := "["
  const CLOSE: string := "],"
  const START: string := "STARTCHAR"
  const END: string := "ENDCHAR"

  predicate StartsWith(line: string, prefix: string) {
    |prefix| <= |line| && line[..|prefix|] == prefix
  }

  /** A line the compiler treats as a bitmap row (inside a glyph block). */
  predicate BitmapLine(line: string) {
    |line| > 0 && (line[0] == '.' || line[0] == '@')
  }

  /** A row the encoder accepts: nothing but `.` and `@`. */
  predicate ValidRow(line: string) {
    forall i :: 0 <= i < |line| ==> line[i] == '.' || line[i] == '@'
  }

  // ---------------------------------------------------------------------------
  // Binary numerals, the reference for both the encoder and the formatter.

  /** Weight of `c` as a binary digit whose set symbol is `one`. */
  function DigitOf(c: char, one: char): nat {
    if c == one then 1 else 0
  }

  /** `s` read as a binary numeral, most significant symbol first. */
  function ValueOf(s: string, one: char): (v: nat)
    ensures v < Pow2(|s|)
  {
    if |s| == 0 then 0 else 2 * ValueOf(s[..|s| - 1], one) + DigitOf(s[|s| - 1], one)
  }

  /** The `n` low bits of `v` written with `zero` and `one`, most significant first. */
  function Numeral(v: nat, n: nat, zero: char, one: char): (s: string)
    ensures |s| == n && forall i :: 0 <= i < n ==> s[i] == zero || s[i] == one
  {
    if n == 0 then [] else Numeral(v / 2, n - 1, zero, one) + [if v % 2 == 1 then one else zero]
  }

  /** Writing a number that fits in `n` bits and reading it back gives the number. */
  lemma {:induction false} ValueOfNumeral(v: nat, n: nat, zero: char, one: char)
    requires zero != one && v < Pow2(n)
    ensures ValueOf(Numeral(v, n, zero, one), one) == v
  {
    if n > 0 {
      var s := Numeral(v, n, zero, one);
      assert s[..n - 1] == Numeral(v / 2, n - 1, zero, one);
      ValueOfNumeral(v / 2, n - 1, zero, one);
    }
  }

  /** Reading a numeral and writing it back at the same width gives the numeral. */
  lemma {:induction false} NumeralOfValue(s: string, zero: char, one: char)
    requires zero != one && forall i :: 0 <= i < |s| ==> s[i] == zero || s[i] == one
    ensures Numeral(ValueOf(s, one), |s|, zero, one) == s
  {
    if |s| > 0 {
      var init := s[..|s| - 1];
      var v := ValueOf(s, one);
      assert v / 2 == ValueOf(init, one) && v % 2 == DigitOf(s[|s| - 1], one);
      NumeralOfValue(init, zero, one);
      assert s == init + [s[|s| - 1]];
    }
  }

  /** Bit `j` of a numeral's value is the symbol `j` places from the right. */
  lemma {:induction false} BitOfValue(s: string, one: char, j: nat)
    requires j < |s|
    ensures Bit(ValueOf(s, one), j) == DigitOf(s[|s| - 1 - j], one)
  {
    var v := ValueOf(s, one);
    var init := s[..|s| - 1];
    assert v / 2 == ValueOf(init, one) && v % 2 == DigitOf(s[|s| - 1], one);
    if j > 0 {
      BitAboveZero(v, j);
      BitOfValue(init, one, j - 1);
    }
  }

  /** `(2x + d) mod 2y == 2 (x mod y) + d`: doubling and reducing commute for one more bit. */
  lemma DoubleMod(x: nat, y: nat, d: nat)
    requires y > 0 && d < 2
    ensures (2 * x + d) % (2 * y) == 2 * (x % y) + d
  {
    var q, r := x / y, x % y;
    assert x == q * y + r;
    assert 2 * x + d == q * (2 * y) + (2 * r + d);
    DivModUnique(2 * x + d, 2 * y, q, 2 * r + d);
  }

  /** The value modulo `2^k` is the value of the last `k` symbols. */
  lemma {:induction false} ValueOfSuffix(s: string, one: char, k: nat)
    requires k <= |s|
    ensures ValueOf(s, one) % Pow2(k) == ValueOf(s[|s| - k..], one)
  {
    if k == 0 {
      assert s[|s|..] == [];
    } else {
      var init := s[..|s| - 1];
      ValueOfSuffix(init, one, k - 1);
      DoubleMod(ValueOf(init, one), Pow2(k - 1), DigitOf(s[|s| - 1], one));
      var tail := s[|s| - k..];
      assert tail[..|tail| - 1] == init[|init| - (k - 1)..];
      assert tail[|tail| - 1] == s[|s| - 1];
    }
  }

  // ---------------------------------------------------------------------------
  // The row encoder.

  /** `output_num = (output_num << 1) | bit` over the characters of `line`, starting from
      `acc`: the `u16` shift drops the top bit, and a character other than `.` or `@`
      panics. */
  function Encode(acc: u16, line: string): Result<u16, CompileError>
    decreases |line|
  {
    if |line| == 0 then Ok(acc)
    else if line[0] == '.' || line[0] == '@' then Encode(2 * (acc % 0x8000) + DigitOf(line[0], '@'), line[1..])
    else Err(InvalidCharacter(line[0]))
  }

  function EncodeRow(line: string): Result<u16, CompileError> {
    Encode(0, line)
  }

  /** Index of the first character the encoder rejects, or `|line|`. */
  function FirstInvalid(line: string): (n: nat)
    ensures n <= |line| && ValidRow(line[..n]) && (n < |line| ==> line[n] != '.' && line[n] != '@')
  {
    if |line| == 0 || (line[0] != '.' && line[0] != '@') then 0
    else
      var n := 1 + FirstInvalid(line[1..]);
      assert forall i :: 1 <= i < n ==> line[..n][i] == line[1..][..n - 1][i - 1];
      n
  }

  /** The last 16 characters of `line` (all of it when shorter): what survives in a
      `u16` after shifting every character in. */
  function Last16(line: string): (w: string)
    ensures |w| <= 16
  {
    if |line| <= 16 then line else line[|line| - 16..]
  }

  lemma Pow2Fifteen()
    ensures Pow2(15) == 0x8000 && Pow2(16) == U16_LIMIT
  {
    assert Pow2(8) == 0x100;
  }

  /** One encoder step on the value of a window `w` of at most 16 characters gives the
      value of the window extended by `c` and cut back to 16. */
  lemma EncodeStep(w: string, c: char)
    requires ValidRow(w) && |w| <= 16 && (c == '.' || c == '@')
    ensures 2 * (ValueOf(w, '@') % 0x8000) + DigitOf(c, '@') == ValueOf(Last16(w + [c]), '@')
  {
    if |w| >= 15 {
      EncodeStepFull(w, c);
    } else {
      EncodeStepShort(w, c);
    }
  }

  /** Below 15 characters nothing is shifted out. */
  lemma EncodeStepShort(w: string, c: char)
    requires |w| < 15
    ensures 2 * (ValueOf(w, '@') % 0x8000) + DigitOf(c, '@') == ValueOf(Last16(w + [c]), '@')
  {
    var wc := w + [c];
    var v := ValueOf(w, '@');
    Pow2Fifteen();
    Pow2Monotone(|w|, 15);
    DivModUnique(v, 0x8000, 0, v);
    assert Last16(wc) == wc;
    assert wc[..|wc| - 1] == w;
  }

  /** From 15 characters on, the step keeps the last 15 and appends `c`. */
  lemma EncodeStepFull(w: string, c: char)
    requires 15 <= |w| <= 16
    ensures 2 * (ValueOf(w, '@') % 0x8000) + DigitOf(c, '@') == ValueOf(Last16(w + [c]), '@')
  {
    var t := w[|w| - 15..];
    assert ValueOf(w, '@') % 0x8000 == ValueOf(t, '@') by {
      Pow2Fifteen();
      ValueOfSuffix(w, '@', 15);
    }
    ValueOfSnoc(t, c, '@');
    Last16Window(w, c);
  }

  /** Appending a symbol doubles the value and adds the symbol's digit. */
  lemma ValueOfSnoc(s: string, c: char, one: char)
    ensures ValueOf(s + [c], one) == 2 * ValueOf(s, one) + DigitOf(c, one)
  {
    var sc := s + [c];
    assert sc[..|sc| - 1] == s;
  }

  /** A full window moves on by one character. */
  lemma Last16Window(w: string, c: char)
    requires 15 <= |w| <= 16
    ensures Last16(w + [c]) == w[|w| - 15..] + [c]
  {
  }

  lemma Last16Suffix(w: string, c: char, rest: string)
    requires |w| <= 16
    ensures Last16(Last16(w + [c]) + rest) == Last16(w + [c] + rest)
  {
    var wc := w + [c];
    var a, b := Last16(wc) + rest, wc + rest;
    if |b| <= 16 {
      assert Last16(wc) == wc;
    } else {
      assert a == b[|b| - |a|..];
      assert Last16(a) == Last16(b);
    }
  }

  /** The pieces `EncodeFold` recurses on stay valid rows. */
  lemma ValidRowParts(w: string, line: string)
    requires ValidRow(w) && ValidRow(line) && |line| > 0
    ensures ValidRow(line[1..]) && ValidRow(Last16(w + [line[0]]))
  {
    var rest, next := line[1..], Last16(w + [line[0]]);
    forall i | 0 <= i < |rest| ensures rest[i] == '.' || rest[i] == '@' {
      assert rest[i] == line[i + 1];
    }
    forall i | 0 <= i < |next| ensures next[i] == '.' || next[i] == '@' {
      assert next[i] in w + [line[0]];
    }
  }

  /** The encoder's fold from the value of a window `w`: a valid row gives the value of
      the last 16 characters of `w` followed by the row. */
  lemma {:induction false} EncodeFold(w: string, acc: u16, line: string)
    requires ValidRow(w) && |w| <= 16 && acc == ValueOf(w, '@') && ValidRow(line)
    ensures Encode(acc, line) == Ok(ValueOf(Last16(w + line), '@'))
    decreases |line|
  {
    if |line| == 0 {
      assert w + line == w;
    } else {
      var c, rest := line[0], line[1..];
      ValidRowParts(w, line);
      var next := Last16(w + [c]);
      var acc' := 2 * (acc % 0x8000) + DigitOf(c, '@');
      assert Encode(acc, line) == Encode(acc', rest);
      EncodeStep(w, c);
      EncodeFold(next, acc', rest);
      Last16Shift(w, line);
    }
  }

  /** Shifting the first character of `line` into the window and then the rest gives the
      window of the whole. */
  lemma Last16Shift(w: string, line: string)
    requires |w| <= 16 && |line| > 0
    ensures Last16(Last16(w + [line[0]]) + line[1..]) == Last16(w + line)
  {
    var c, rest := line[0], line[1..];
    assert line == [c] + rest;
    assert w + line == (w + [c]) + rest;
    Last16Suffix(w, c, rest);
  }

  /** Whatever has been accumulated, the encoder stops at the first character other than
      `.` and `@`. */
  lemma {:induction false} EncodeRejects(acc: u16, line: string)
    requires !ValidRow(line)
    ensures FirstInvalid(line) < |line|
    ensures Encode(acc, line) == Err(InvalidCharacter(line[FirstInvalid(line)]))
    decreases |line|
  {
    if line[0] == '.' || line[0] == '@' {
      var rest := line[1..];
      assert !ValidRow(rest) by {
        var i :| 0 <= i < |line| && line[i] != '.' && line[i] != '@';
        assert i > 0 && rest[i - 1] == line[i];
      }
      EncodeRejects(2 * (acc % 0x8000) + DigitOf(line[0], '@'), rest);
      assert FirstInvalid(line) == 1 + FirstInvalid(rest);
    }
  }

  /** `EncodeRow` keeps the value of the row's last 16 characters (the shifted-out bits
      are lost) and rejects a row with its first character other than `.` and `@`. */
  lemma EncodeRowSpec(line: string)
    ensures ValidRow(line) ==> EncodeRow(line) == Ok(ValueOf(Last16(line), '@'))
    ensures !ValidRow(line) ==> FirstInvalid(line) < |line| && EncodeRow(line) == Err(InvalidCharacter(line[FirstInvalid(line)]))
  {
    if ValidRow(line) {
      EncodeFold([], 0, line);
      assert [] + line == line;
    } else {
      EncodeRejects(0, line);
    }
  }

  /** A valid row of at most 16 characters encodes to its binary value, and the row can
      be read back from it: no information is lost. */
  lemma EncodeRowRoundTrip(line: string)
    requires ValidRow(line) && |line| <= 16
    ensures EncodeRow(line) == Ok(ValueOf(line, '@'))
    ensures Numeral(EncodeRow(line).value, |line|, '.', '@') == line
  {
    EncodeRowSpec(line);
    NumeralOfValue(line, '.', '@');
  }

  /** Conversely every `n`-bit value is the encoding of exactly one row of width `n`. */
  lemma EncodeRowOfNumeral(v: nat, n: nat)
    requires n <= 16 && v < Pow2(n)
    ensures EncodeRow(Numeral(v, n, '.', '@')) == Ok(v)
  {
    var line := Numeral(v, n, '.', '@');
    EncodeRowRoundTrip(line);
    ValueOfNumeral(v, n, '.', '@');
  }

  /** Rows of the same width up to 16 have the same encoding only when they are equal;
      rows of different widths can collide (`@` and `.@` both encode to 1). */
  lemma EncodeRowInjective(a: string, b: string)
    requires ValidRow(a) && ValidRow(b) && |a| == |b| <= 16
    requires EncodeRow(a) == EncodeRow(b)
    ensures a == b
  {
    EncodeRowRoundTrip(a);
    EncodeRowRoundTrip(b);
  }

  /** `n` copies of `c`. */
  function Repeat(c: char, n: nat): (s: string)
    ensures |s| == n && forall i :: 0 <= i < n ==> s[i] == c
  {
    if n == 0 then [] else Repeat(c, n - 1) + [c]
  }

  /** A run of `n` symbols reads as `2^n - 1` when the symbol is `one` and as 0 otherwise. */
  lemma {:induction false} ValueOfRun(c: char, n: nat, one: char)
    ensures ValueOf(Repeat(c, n), one) == if c == one then Pow2(n) - 1 else 0
  {
    if n > 0 {
      ValueOfSnoc(Repeat(c, n - 1), c, one);
      ValueOfRun(c, n - 1, one);
    }
  }

  /** A blank row encodes to 0 at any width; a full row of `n` pixels to `2^n - 1`,
      which stays at `0xFFFF` beyond 16 pixels. */
  lemma EncodeRowRuns(n: nat)
    ensures EncodeRow(Repeat('.', n)) == Ok(0)
    ensures n <= 16 ==> EncodeRow(Repeat('@', n)) == Ok(Pow2(n) - 1)
    ensures n >= 16 ==> EncodeRow(Repeat('@', n)) == Ok(0xFFFF)
  {
    var k := if n <= 16 then n else 16;
    EncodeRowSpec(Repeat('.', n));
    EncodeRowSpec(Repeat('@', n));
    Last16Run('.', n);
    Last16Run('@', n);
    ValueOfRun('.', k, '@');
    ValueOfRun('@', k, '@');
    Pow2Fifteen();
    Pow2Monotone(k, 16);
  }

  /** The last 16 characters of a run are a run of at most 16. */
  lemma Last16Run(c: char, n: nat)
    ensures Last16(Repeat(c, n)) == Repeat(c, if n <= 16 then n else 16)
  {
    var w, k := Last16(Repeat(c, n)), if n <= 16 then n else 16;
    assert |w| == k;
    forall i | 0 <= i < k ensures w[i] == Repeat(c, k)[i] {
      assert w[i] == Repeat(c, n)[n - k + i];
    }
  }

  /** The one-column shift between the compiler and `render_font`: for a nine-character
      row, `LATIN1` pixel column `dx` is set exactly when character `dx - 1` is `@`, so
      column 0 is always clear and the row's last character is never drawn. */
  lemma CompiledRowColumns(line: string, dx: nat)
    requires ValidRow(line) && |line| == LATIN1.cols && dx < LATIN1.cols
    ensures EncodeRow(line).Ok?
    ensures Bit(EncodeRow(line).value, LATIN1.maskBit - dx) == 1 <==> dx >= 1 && line[dx - 1] == '@'
  {
    EncodeRowRoundTrip(line);
    var v := ValueOf(line, '@');
    assert EncodeRow(line).value == v;
    if dx == 0 {
      DivModUnique(v, Pow2(9), 0, v);
    } else {
      BitOfValue(line, '@', LATIN1.maskBit - dx);
    }
  }

  // ---------------------------------------------------------------------------
  // Formatting a row: `0b{:08b},`.

  function Max(a: nat, b: nat): nat {
    if a < b then b else a
  }

  /** Number of binary digits of `v` without leading zeros (`0` has one). */
  function BitLength(v: nat): (n: nat)
    ensures 1 <= n && v < Pow2(n) && (n > 1 ==> Pow2(n - 1) <= v)
  {
    if v < 2 then 1 else 1 + BitLength(v / 2)
  }

  /** `{:08b}`: binary digits, left-padded with `0` to at least eight. */
  function Binary(v: u16): string {
    Numeral(v, Max(8, BitLength(v)), '0', '1')
  }

  /** The line written for one bitmap row. */
  function FormatRow(v: u16): string {
    "0b" + Binary(v) + ","
  }

  predicate BinaryDigits(s: string) {
    forall i :: 0 <= i < |s| ==> s[i] == '0' || s[i] == '1'
  }

  /** Reads back a line of the form `0b<digits>,`; the partner of `FormatRow`. */
  function ParseRow(line: string): Option<nat> {
    if |line| >= 3 && line[..2] == "0b" && line[|line| - 1] == ',' && BinaryDigits(line[2..|line| - 1]) then
      Some(ValueOf(line[2..|line| - 1], '1'))
    else None
  }

  /** Symbol `i` of a numeral is bit `n - 1 - i` of the value. */
  lemma {:induction false} NumeralDigit(v: nat, n: nat, zero: char, one: char, i: nat)
    requires i < n
    ensures Numeral(v, n, zero, one)[i] == if Bit(v, n - 1 - i) == 1 then one else zero
  {
    if i < n - 1 {
      NumeralDigit(v / 2, n - 1, zero, one, i);
      BitAboveZero(v, n - 1 - i);
    }
  }

  /** Every formatted row reads back as the value it was made from. */
  lemma FormatRowRoundTrip(v: u16)
    ensures ParseRow(FormatRow(v)) == Some(v)
  {
    var n := Max(8, BitLength(v));
    var digits := Binary(v);
    var line := FormatRow(v);
    assert line[..2] == "0b" && line[2..|line| - 1] == digits;
    Pow2Monotone(BitLength(v), n);
    ValueOfNumeral(v, n, '0', '1');
  }

  /** The digits are padded to eight and never beyond: a wider numeral starts with `1`. */
  lemma FormatRowWidth(v: u16)
    ensures |Binary(v)| == Max(8, BitLength(v)) >= 8
    ensures |Binary(v)| > 8 ==> Binary(v)[0] == '1'
    ensures v < 0x100 ==> |FormatRow(v)| == 11
  {
    var n := BitLength(v);
    if n > 8 {
      NumeralDigit(v, n, '0', '1', 0);
      DivModUnique(v, Pow2(n - 1), 1, v - Pow2(n - 1));
    }
    if v < 0x100 && n > 8 {
      assert Pow2(8) == 0x100;
      Pow2Monotone(8, n - 1);
      assert false;
    }
  }

  // ---------------------------------------------------------------------------
  // The line loop.

  /** State after one line: inside a glyph block or not, and the lines written. */
  datatype Step = Step(inChar: bool, out: seq<string>)

  /** `STARTCHAR` enters a block, `ENDCHAR` leaves it, anything else keeps the state. */
  function NextInChar(inChar: bool, line: string): bool {
    if StartsWith(line, START) then true else if StartsWith(line, END) then false else inChar
  }

  /** The `[` or `],` written for a block boundary. */
  function Marker(line: string): seq<string> {
    if StartsWith(line, START) then [OPEN] else if StartsWith(line, END) then [CLOSE] else []
  }

  /** One iteration of the loop: the boundary marker, then, inside a block, the
      encoded row of a line starting with `.` or `@`. */
  function CompileLine(inChar: bool, line: string): Result<Step, CompileError> {
    var now := NextInChar(inChar, line);
    if now && BitmapLine(line) then
      var v :- EncodeRow(line);
      Ok(Step(now, Marker(line) + [FormatRow(v)]))
    else Ok(Step(now, Marker(line)))
  }

  /** The loop over all lines; the first failing row aborts the build. */
  function CompileLines(inChar: bool, lines: seq<string>): Result<seq<string>, CompileError>
    decreases |lines|
  {
    if |lines| == 0 then Ok([])
    else
      var step :- CompileLine(inChar, lines[0]);
      var tail :- CompileLines(step.inChar, lines[1..]);
      Ok(step.out + tail)
  }

  /** The whole generated file: the declaration line, the rows, the closing line. */
  function Compile(lines: seq<string>): Result<seq<string>, CompileError> {
    var body :- CompileLines(false, lines);
    Ok([HEADER] + body + [FOOTER])
  }

  // ---------------------------------------------------------------------------
  // What the loop produces for a well-formed font source.

  /** `out` written in front of whatever the rest produces; a failure stays a failure. */
  function Prefixed(out: seq<string>, r: Result<seq<string>, CompileError>): Result<seq<string>, CompileError> {
    if r.Ok? then Ok(out + r.value) else r
  }

  /** A line that changes nothing in state `inChar`: no block boundary, and no bitmap
      row when inside a block. */
  predicate Skipped(inChar: bool, line: string) {
    !StartsWith(line, START) && !StartsWith(line, END) && (inChar ==> !BitmapLine(line))
  }

  /** A glyph block of the font source: `STARTCHAR ...`, header lines such as `ENCODING`
      and `BITMAP`, the bitmap rows, `ENDCHAR`. */
  datatype Block = Block(start: string, header: seq<string>, rows: seq<string>, end: string)

  predicate WellFormed(b: Block) {
    StartsWith(b.start, START) && StartsWith(b.end, END)
    && (forall i :: 0 <= i < |b.header| ==> Skipped(true, b.header[i]))
    && (forall i :: 0 <= i < |b.rows| ==> BitmapLine(b.rows[i]) && ValidRow(b.rows[i]))
  }

  function BlockLines(b: Block): seq<string> {
    [b.start] + b.header + b.rows + [b.end]
  }

  function SourceLines(blocks: seq<Block>): seq<string> {
    if |blocks| == 0 then [] else BlockLines(blocks[0]) + SourceLines(blocks[1..])
  }

  /** The value each row is expected to compile to: its last 16 pixels. */
  function RowValue(line: string): (v: u16)
    requires ValidRow(line)
  {
    Pow2Fifteen();
    Pow2Monotone(|Last16(line)|, 16);
    ValueOf(Last16(line), '@')
  }

  function FormattedRows(rows: seq<string>): seq<string>
    requires forall i :: 0 <= i < |rows| ==> ValidRow(rows[i])
  {
    if |rows| == 0 then [] else [FormatRow(RowValue(rows[0]))] + FormattedRows(rows[1..])
  }

  function BlockOutput(b: Block): seq<string>
    requires WellFormed(b)
  {
    [OPEN] + FormattedRows(b.rows) + [CLOSE]
  }

  function SourceOutput(blocks: seq<Block>): seq<string>
    requires forall k :: 0 <= k < |blocks| ==> WellFormed(blocks[k])
  {
    if |blocks| == 0 then [] else BlockOutput(blocks[0]) + SourceOutput(blocks[1..])
  }

  /** Boundary lines are neither each other nor bitmap rows. */
  lemma BoundaryLines(line: string)
    ensures StartsWith(line, START) ==> !StartsWith(line, END) && !BitmapLine(line)
    ensures StartsWith(line, END) ==> !BitmapLine(line)
  {
    if StartsWith(line, START) {
      assert line[0] == line[..|START|][0] == 'S';
    }
    if StartsWith(line, END) {
      assert line[0] == line[..|END|][0] == 'E';
    }
  }

  /** Inside a block, a good bitmap row writes its formatted value. */
  lemma CompileRowLine(row: string)
    requires BitmapLine(row) && ValidRow(row)
    ensures CompileLine(true, row) == Ok(Step(true, [FormatRow(RowValue(row))]))
  {
    BoundaryLines(row);
    EncodeRowSpec(row);
    var out := [FormatRow(RowValue(row))];
    assert Marker(row) + out == out;
  }

  /** `STARTCHAR` writes `[` and enters a block; `ENDCHAR` writes `],` and leaves it. */
  lemma CompileBoundaryLine(inChar: bool, line: string)
    ensures StartsWith(line, START) ==> CompileLine(inChar, line) == Ok(Step(true, [OPEN]))
    ensures StartsWith(line, END) ==> CompileLine(inChar, line) == Ok(Step(false, [CLOSE]))
  {
    BoundaryLines(line);
  }

  /** One turn of the loop: what the line writes goes in front of what the rest writes. */
  lemma CompileLinesStep(inChar: bool, line: string, rest: seq<string>, step: Step)
    requires CompileLine(inChar, line) == Ok(step)
    ensures CompileLines(inChar, [line] + rest) == Prefixed(step.out, CompileLines(step.inChar, rest))
  {
    var lines := [line] + rest;
    assert lines[0] == line && lines[1..] == rest;
  }

  lemma PrefixedTwice(a: seq<string>, b: seq<string>, r: Result<seq<string>, CompileError>)
    ensures Prefixed(a, Prefixed(b, r)) == Prefixed(a + b, r)
  {
    if r.Ok? {
      assert a + (b + r.value) == (a + b) + r.value;
    }
  }

  lemma PrefixedNothing(r: Result<seq<string>, CompileError>)
    ensures Prefixed([], r) == r
  {
    if r.Ok? {
      assert [] + r.value == r.value;
    }
  }

  /** Lines that change nothing are passed over without output. */
  lemma {:induction false} SkipLines(inChar: bool, skipped: seq<string>, rest: seq<string>)
    requires forall i :: 0 <= i < |skipped| ==> Skipped(inChar, skipped[i])
    ensures CompileLines(inChar, skipped + rest) == CompileLines(inChar, rest)
    decreases |skipped|
  {
    if |skipped| == 0 {
      assert skipped + rest == rest;
    } else {
      var line, more := skipped[0], skipped[1..] + rest;
      assert skipped + rest == [line] + more;
      assert CompileLine(inChar, line) == Ok(Step(inChar, []));
      CompileLinesStep(inChar, line, more, Step(inChar, []));
      PrefixedNothing(CompileLines(inChar, more));
      SkipLines(inChar, skipped[1..], rest);
    }
  }

  /** Inside a block every good row becomes its formatted value, in order. */
  lemma {:induction false} RowsCompile(rows: seq<string>, rest: seq<string>)
    requires forall i :: 0 <= i < |rows| ==> BitmapLine(rows[i]) && ValidRow(rows[i])
    ensures CompileLines(true, rows + rest) == Prefixed(FormattedRows(rows), CompileLines(true, rest))
    decreases |rows|
  {
    if |rows| == 0 {
      assert rows + rest == rest;
      PrefixedNothing(CompileLines(true, rest));
    } else {
      var row, more := rows[0], rows[1..] + rest;
      assert rows + rest == [row] + more;
      var out := [FormatRow(RowValue(row))];
      CompileRowLine(row);
      CompileLinesStep(true, row, more, Step(true, out));
      RowsCompile(rows[1..], rest);
      PrefixedTwice(out, FormattedRows(rows[1..]), CompileLines(true, rest));
    }
  }

  /** A well-formed block writes `[`, one line per bitmap row, `],` and leaves the
      loop outside a block, whatever state it started in. */
  lemma CompileBlock(inChar: bool, b: Block, rest: seq<string>)
    requires WellFormed(b)
    ensures CompileLines(inChar, BlockLines(b) + rest) == Prefixed(BlockOutput(b), CompileLines(false, rest))
  {
    CompileBoundaryLine(inChar, b.start);
    CompileBoundaryLine(true, b.end);
    var afterRows := [b.end] + rest;
    var afterHeader := b.rows + afterRows;
    assert BlockLines(b) + rest == [b.start] + (b.header + afterHeader);
    CompileLinesStep(inChar, b.start, b.header + afterHeader, Step(true, [OPEN]));
    SkipLines(true, b.header, afterHeader);
    RowsCompile(b.rows, afterRows);
    CompileLinesStep(true, b.end, rest, Step(false, [CLOSE]));
    PrefixedTwice(FormattedRows(b.rows), [CLOSE], CompileLines(false, rest));
    PrefixedTwice([OPEN], FormattedRows(b.rows) + [CLOSE], CompileLines(false, rest));
    assert BlockOutput(b) == [OPEN] + (FormattedRows(b.rows) + [CLOSE]);
  }

  /** A sequence of well-formed blocks compiles to the concatenation of their outputs. */
  lemma {:induction false} CompileBlocks(blocks: seq<Block>, rest: seq<string>)
    requires forall k :: 0 <= k < |blocks| ==> WellFormed(blocks[k])
    ensures CompileLines(false, SourceLines(blocks) + rest) == Prefixed(SourceOutput(blocks), CompileLines(false, rest))
    decreases |blocks|
  {
    if |blocks| == 0 {
      assert SourceLines(blocks) + rest == rest;
      PrefixedNothing(CompileLines(false, rest));
    } else {
      var tail := SourceLines(blocks[1..]) + rest;
      assert SourceLines(blocks) + rest == BlockLines(blocks[0]) + tail;
      CompileBlock(false, blocks[0], tail);
      CompileBlocks(blocks[1..], rest);
      PrefixedTwice(BlockOutput(blocks[0]), SourceOutput(blocks[1..]), CompileLines(false, rest));
    }
  }

  /** Lines that change nothing, on their own, write nothing. */
  lemma SkipAll(inChar: bool, skipped: seq<string>)
    requires forall i :: 0 <= i < |skipped| ==> Skipped(inChar, skipped[i])
    ensures CompileLines(inChar, skipped) == Ok([])
  {
    SkipLines(inChar, skipped, []);
    assert skipped + [] == skipped;
  }

  /** The blocks and the trailer write every block's output, in order. */
  lemma BlocksThenTrailer(blocks: seq<Block>, trailer: seq<string>)
    requires forall k :: 0 <= k < |blocks| ==> WellFormed(blocks[k])
    requires forall i :: 0 <= i < |trailer| ==> Skipped(false, trailer[i])
    ensures CompileLines(false, SourceLines(blocks) + trailer) == Ok(SourceOutput(blocks))
  {
    SkipAll(false, trailer);
    CompileBlocks(blocks, trailer);
    assert SourceOutput(blocks) + [] == SourceOutput(blocks);
  }

  /** The body of the generated file: the preamble writes nothing, then the blocks. */
  lemma CompileFontBody(preamble: seq<string>, blocks: seq<Block>, trailer: seq<string>)
    requires forall i :: 0 <= i < |preamble| ==> Skipped(false, preamble[i])
    requires forall k :: 0 <= k < |blocks| ==> WellFormed(blocks[k])
    requires forall i :: 0 <= i < |trailer| ==> Skipped(false, trailer[i])
    ensures CompileLines(false, preamble + (SourceLines(blocks) + trailer)) == Ok(SourceOutput(blocks))
  {
    BlocksThenTrailer(blocks, trailer);
    SkipLines(false, preamble, SourceLines(blocks) + trailer);
  }

  /** A font source: a preamble (`STARTFONT`, properties), the glyph blocks and a
      trailer (`ENDFONT`). */
  datatype FontSource = FontSource(preamble: seq<string>, blocks: seq<Block>, trailer: seq<string>)

  predicate WellFormedSource(f: FontSource) {
    (forall i :: 0 <= i < |f.preamble| ==> Skipped(false, f.preamble[i]))
    && (forall k :: 0 <= k < |f.blocks| ==> WellFormed(f.blocks[k]))
    && (forall i :: 0 <= i < |f.trailer| ==> Skipped(false, f.trailer[i]))
  }

  function SourceFile(f: FontSource): seq<string> {
    f.preamble + (SourceLines(f.blocks) + f.trailer)
  }

  /** The generated file for a well-formed font source: the declaration line, each
      block's rows between `[` and `],`, and the closing `];`. */
  lemma CompileFont(f: FontSource)
    requires WellFormedSource(f)
    ensures Compile(SourceFile(f)) == Ok([HEADER] + SourceOutput(f.blocks) + [FOOTER])
  {
    CompileFontBody(f.preamble, f.blocks, f.trailer);
  }

  /** Number of lines of `lines` that start with `prefix`. */
  function CountStarting(lines: seq<string>, prefix: string): nat
    decreases |lines|
  {
    if |lines| == 0 then 0
    else (if StartsWith(lines[0], prefix) then 1 else 0) + CountStarting(lines[1..], prefix)
  }

  lemma {:induction false} CountStartingAppend(a: seq<string>, b: seq<string>, prefix: string)
    ensures CountStarting(a + b, prefix) == CountStarting(a, prefix) + CountStarting(b, prefix)
    decreases |a|
  {
    if |a| == 0 {
      assert a + b == b;
    } else {
      assert (a + b)[1..] == a[1..] + b;
      CountStartingAppend(a[1..], b, prefix);
    }
  }

  lemma {:induction false} CountStartingNone(lines: seq<string>, prefix: string)
    requires forall i :: 0 <= i < |lines| ==> !StartsWith(lines[i], prefix)
    ensures CountStarting(lines, prefix) == 0
    decreases |lines|
  {
    if |lines| > 0 {
      CountStartingNone(lines[1..], prefix);
    }
  }

  /** A line starting with `prefix`, lines that do not, and a last line that does not:
      one match. */
  lemma CountBracketed(first: string, middle: seq<string>, last: string, prefix: string)
    requires StartsWith(first, prefix) && !StartsWith(last, prefix)
    requires forall i :: 0 <= i < |middle| ==> !StartsWith(middle[i], prefix)
    ensures CountStarting([first] + middle + [last], prefix) == 1
  {
    CountStartingNone(middle, prefix);
    CountStartingAppend([first] + middle, [last], prefix);
    CountStartingAppend([first], middle, prefix);
    assert [last][1..] == [] && [first][1..] == [];
  }

  /** A block has one `STARTCHAR` line. */
  lemma StartOfBlock(b: Block)
    requires WellFormed(b)
    ensures CountStarting(BlockLines(b), START) == 1
  {
    BoundaryLines(b.start);
    BoundaryLines(b.end);
    forall i | 0 <= i < |b.header + b.rows| ensures !StartsWith((b.header + b.rows)[i], START) {
      if i >= |b.header| {
        BoundaryLines(b.rows[i - |b.header|]);
      }
    }
    assert BlockLines(b) == [b.start] + (b.header + b.rows) + [b.end];
    CountBracketed(b.start, b.header + b.rows, b.end, START);
  }

  /** A formatted row starts with `0b`, never with `[`. */
  lemma FormatRowNotOpen(v: u16)
    ensures !StartsWith(FormatRow(v), OPEN)
  {
    assert FormatRow(v)[..1][0] == '0';
  }

  /** A block writes one `[` line. */
  lemma GroupOfBlock(b: Block)
    requires WellFormed(b)
    ensures CountStarting(BlockOutput(b), OPEN) == 1
  {
    var rows := FormattedRows(b.rows);
    forall i | 0 <= i < |rows| ensures !StartsWith(rows[i], OPEN) {
      FormattedRowsAt(b.rows, i);
      FormatRowNotOpen(RowValue(b.rows[i]));
    }
    assert !StartsWith(CLOSE, OPEN) by {
      assert CLOSE[..1][0] == ']';
    }
    CountBracketed(OPEN, rows, CLOSE, OPEN);
  }

  /** Row `i` of the output is the formatted value of bitmap row `i`. */
  lemma {:induction false} FormattedRowsAt(rows: seq<string>, i: nat)
    requires forall j :: 0 <= j < |rows| ==> ValidRow(rows[j])
    requires i < |FormattedRows(rows)|
    ensures i < |rows| && FormattedRows(rows)[i] == FormatRow(RowValue(rows[i]))
    decreases |rows|
  {
    if i > 0 {
      FormattedRowsAt(rows[1..], i - 1);
    }
  }

  /** One `STARTCHAR` line and one `[` line per block. */
  lemma {:induction false} GroupsOfBlocks(blocks: seq<Block>)
    requires forall k :: 0 <= k < |blocks| ==> WellFormed(blocks[k])
    ensures CountStarting(SourceLines(blocks), START) == |blocks|
    ensures CountStarting(SourceOutput(blocks), OPEN) == |blocks|
    decreases |blocks|
  {
    if |blocks| > 0 {
      StartOfBlock(blocks[0]);
      GroupOfBlock(blocks[0]);
      GroupsOfBlocks(blocks[1..]);
      CountStartingAppend(BlockLines(blocks[0]), SourceLines(blocks[1..]), START);
      CountStartingAppend(BlockOutput(blocks[0]), SourceOutput(blocks[1..]), OPEN);
    }
  }

  /** The generated table has exactly one `[` group per `STARTCHAR` line of the source. */
  lemma GlyphGroups(f: FontSource)
    requires WellFormedSource(f)
    ensures Compile(SourceFile(f)).Ok?
    ensures CountStarting(Compile(SourceFile(f)).value, OPEN) == CountStarting(SourceFile(f), START) == |f.blocks|
  {
    CompileFont(f);
    SourceStarts(f);
    GroupsOfBlocks(f.blocks);
    EnclosedCount(SourceOutput(f.blocks), |f.blocks|);
  }

  lemma SourceStarts(f: FontSource)
    requires WellFormedSource(f)
    ensures CountStarting(SourceFile(f), START) == |f.blocks|
  {
    GroupsOfBlocks(f.blocks);
    CountStartingNone(f.preamble, START);
    CountStartingNone(f.trailer, START);
    CountStartingAppend(SourceLines(f.blocks), f.trailer, START);
    CountStartingAppend(f.preamble, SourceLines(f.blocks) + f.trailer, START);
  }

  /** The declaration and closing lines add no group to the table's body. */
  lemma EnclosedCount(body: seq<string>, n: nat)
    requires CountStarting(body, OPEN) == n
    ensures CountStarting([HEADER] + body + [FOOTER], OPEN) == n
  {
    EndsNotOpen();
    CountBetween(HEADER, body, FOOTER, OPEN);
  }

  /** The declaration and closing lines are not group openers. */
  lemma EndsNotOpen()
    ensures !StartsWith(HEADER, OPEN) && !StartsWith(FOOTER, OPEN)
  {
    NotOpen(HEADER);
    NotOpen(FOOTER);
  }

  /** A line whose first character is not `[` does not start with `[`. */
  lemma NotOpen(line: string)
    requires |line| > 0 && line[0] != '['
    ensures !StartsWith(line, OPEN)
  {
    assert line[..1][0] == line[0];
  }

  /** Two non-matching lines around `middle` add no match. */
  lemma CountBetween(first: string, middle: seq<string>, last: string, prefix: string)
    requires !StartsWith(first, prefix) && !StartsWith(last, prefix)
    ensures CountStarting([first] + middle + [last], prefix) == CountStarting(middle, prefix)
  {
    CountStartingAppend([first] + middle, [last], prefix);
    CountStartingAppend([first], middle, prefix);
    assert [last][1..] == [] && [first][1..] == [];
  }

  // ---------------------------------------------------------------------------
  // When the build fails.

  /** A line that makes the build fail: a bitmap row with a character other than `.`
      and `@`, reported by its first such character. */
  predicate BadRowAt(lines: seq<string>, i: nat, e: CompileError) {
    i < |lines| && BitmapLine(lines[i]) && !ValidRow(lines[i])
    && FirstInvalid(lines[i]) < |lines[i]| && e == InvalidCharacter(lines[i][FirstInvalid(lines[i])])
  }

  /** One line fails only when it is such a row. */
  lemma CompileLineFails(inChar: bool, line: string)
    requires CompileLine(inChar, line).Err?
    ensures BadRowAt([line], 0, CompileLine(inChar, line).error)
  {
    EncodeRowSpec(line);
  }

  /** A failed build names the first bad character of some bitmap row of the source. */
  lemma {:induction false} CompileLinesFails(inChar: bool, lines: seq<string>)
    requires CompileLines(inChar, lines).Err?
    ensures exists i: nat :: BadRowAt(lines, i, CompileLines(inChar, lines).error)
    decreases |lines|
  {
    var first := CompileLine(inChar, lines[0]);
    if first.Err? {
      CompileLineFails(inChar, lines[0]);
      assert BadRowAt(lines, 0, first.error);
    } else {
      CompileLinesFails(first.value.inChar, lines[1..]);
      var i: nat :| BadRowAt(lines[1..], i, CompileLines(first.value.inChar, lines[1..]).error);
      assert BadRowAt(lines, i + 1, CompileLines(inChar, lines).error);
    }
  }

  /** A source whose bitmap rows are all made of `.` and `@` always compiles. */
  lemma {:induction false} CompileLinesSucceeds(inChar: bool, lines: seq<string>)
    requires forall i :: 0 <= i < |lines| && BitmapLine(lines[i]) ==> ValidRow(lines[i])
    ensures CompileLines(inChar, lines).Ok?
    decreases |lines|
  {
    if |lines| > 0 {
      if BitmapLine(lines[0]) {
        EncodeRowSpec(lines[0]);
      }
      var first := CompileLine(inChar, lines[0]);
      assert first.Ok?;
      CompileLinesSucceeds(first.value.inChar, lines[1..]);
    }
  }
}
