/**
 * What termvas writes to the terminal. Every `process.stdout.write` of the
 * core is one `Emit` record; `Encode` gives its bytes (ECMA-48 control
 * sequences: CUP, section 8.3.21; SGR, section 8.3.117; ED, section 8.3.39)
 * and `Decode` reads a record back from them.
 */
module Escapes {
  import opened Optional
  import opened Cells

  /**
   * One terminal write: the clear-screen of the constructor, the hide-cursor
   * of the first render, or one drawn cell (1-based row and column).
   */
  datatype Emit =
    | ClearScreen
    | HideCursor
    | Draw(row: nat, col: nat, fg: Color, bg: Color, ch: string)

  const Esc: char := 27 as char
  /** Control Sequence Introducer: ESC followed by '['. */
  const Csi: string := [Esc, '[']
  /** SGR 0, the reset at the end of every drawn cell. */
  const Reset: string := Csi + "0m"

  predicate IsDigit(c: char) {
    '0' <= c <= '9'
  }

  function Digit(d: nat): (c: char)
    requires d < 10
    ensures IsDigit(c)
  {
    (d + 48) as char
  }

  function DigitValue(c: char): (d: nat)
    requires IsDigit(c)
    ensures d < 10
  {
    c as int - 48
  }

  predicate AllDigits(s: string) {
    forall i :: 0 <= i < |s| ==> IsDigit(s[i])
  }

  /** The decimal text JavaScript's template literals give a natural number. */
  function Decimal(n: nat): (s: string)
    ensures |s| >= 1 && AllDigits(s)
    decreases n
  {
    if n < 10 then [Digit(n)] else Decimal(n / 10) + [Digit(n % 10)]
  }

  /** The number a string of decimal digits denotes. */
  function ValueOf(s: string): nat
    requires AllDigits(s)
  {
    if |s| == 0 then 0 else 10 * ValueOf(s[..|s| - 1]) + DigitValue(s[|s| - 1])
  }

  lemma {:induction false} ValueOfDecimal(n: nat)
    ensures ValueOf(Decimal(n)) == n
    decreases n
  {
    var s := Decimal(n);
    if n >= 10 {
      ValueOfDecimal(n / 10);
      assert s[..|s| - 1] == Decimal(n / 10);
    }
  }

  /**
   * The bytes of each write. A drawn cell spells out the cursor-position,
   * foreground, background, glyph and reset pieces of the render template
   * in order; the concatenation is nested to the right on purpose, so that
   * the decoder's proofs can peel off one piece at a time.
   */
  function Encode(e: Emit): string {
    match e
    case ClearScreen => Csi + "2J"
    case HideCursor => Csi + "?25l"
    case Draw(row, col, fg, bg, ch) =>
      Csi + (Decimal(row) + (";" + (Decimal(col) + ("H" +
      (Csi + (Decimal(FgCode(fg)) + ("m" +
      (Csi + (Decimal(BgCode(bg)) + ("m" +
      (ch + Reset)))))))))))
  }

  /** The length of the longest prefix of `s` made of digits. */
  function DigitRun(s: string): (k: nat)
    ensures k <= |s| && AllDigits(s[..k])
    ensures k < |s| ==> !IsDigit(s[k])
  {
    if |s| > 0 && IsDigit(s[0]) then
      var k := 1 + DigitRun(s[1..]);
      assert s[..k] == [s[0]] + s[1..][..k - 1];
      k
    else 0
  }

  /** Reads a decimal number off the front of `s`. */
  function ReadNum(s: string): Option<(nat, string)> {
    var k := DigitRun(s);
    if k == 0 then None else Some((ValueOf(s[..k]), s[k..]))
  }

  /** Reads the literal `lit` off the front of `s`. */
  function ReadLit(lit: string, s: string): Option<string> {
    if |lit| <= |s| && s[..|lit|] == lit then Some(s[|lit|..]) else None
  }

  /** Removes the suffix `suffix` from `s`. */
  function DropSuffix(s: string, suffix: string): Option<string> {
    if |suffix| <= |s| && s[|s| - |suffix|..] == suffix then Some(s[..|s| - |suffix|]) else None
  }

  /** Parses one drawn-cell fragment: position, foreground, background, glyph, reset. */
  function DecodeDraw(s: string): Option<Emit> {
    var s1 :- ReadLit(Csi, s);
    var row :- ReadNum(s1);
    var s2 :- ReadLit(";", row.1);
    var col :- ReadNum(s2);
    var s3 :- ReadLit("H", col.1);
    var s4 :- ReadLit(Csi, s3);
    var fgCode :- ReadNum(s4);
    var fg :- FgColor(fgCode.0);
    var s5 :- ReadLit("m", fgCode.1);
    var s6 :- ReadLit(Csi, s5);
    var bgCode :- ReadNum(s6);
    var bg :- BgColor(bgCode.0);
    var s7 :- ReadLit("m", bgCode.1);
    var ch :- DropSuffix(s7, Reset);
    Some(Draw(row.0, col.0, fg, bg, ch))
  }

  function Decode(s: string): Option<Emit> {
    if s == Csi + "2J" then Some(ClearScreen)
    else if s == Csi + "?25l" then Some(HideCursor)
    else DecodeDraw(s)
  }

  lemma ReadLitPrefix(lit: string, rest: string)
    ensures ReadLit(lit, lit + rest) == Some(rest)
  {
    assert (lit + rest)[..|lit|] == lit;
    assert (lit + rest)[|lit|..] == rest;
  }

  /** A number written by `Decimal` is read back whole when no digit follows it. */
  lemma {:induction false} ReadNumDecimal(n: nat, rest: string)
    requires rest == [] || !IsDigit(rest[0])
    ensures ReadNum(Decimal(n) + rest) == Some((n, rest))
  {
    var d := Decimal(n);
    var s := d + rest;
    var k := DigitRun(s);
    assert forall i :: 0 <= i < |d| ==> s[i] == d[i];
    assert |d| < |s| ==> s[|d|] == rest[0];
    assert k == |d|;
    assert s[..k] == d;
    assert s[k..] == rest;
    ValueOfDecimal(n);
  }

  lemma {:induction false} DecodeDrawEncode(row: nat, col: nat, fg: Color, bg: Color, ch: string)
    ensures DecodeDraw(Encode(Draw(row, col, fg, bg, ch))) == Some(Draw(row, col, fg, bg, ch))
  {
    var t8 := ch + Reset;
    var t7 := "m" + t8;
    var t6 := Decimal(BgCode(bg)) + t7;
    var t5 := Csi + t6;
    var t4 := "m" + t5;
    var t3 := Decimal(FgCode(fg)) + t4;
    var t2 := Csi + t3;
    var t1 := "H" + t2;
    var t0 := Decimal(col) + t1;
    var u1 := ";" + t0;
    var u0 := Decimal(row) + u1;
    assert Encode(Draw(row, col, fg, bg, ch)) == Csi + u0;
    ReadLitPrefix(Csi, u0);
    ReadNumDecimal(row, u1);
    ReadLitPrefix(";", t0);
    ReadNumDecimal(col, t1);
    ReadLitPrefix("H", t2);
    ReadLitPrefix(Csi, t3);
    ReadNumDecimal(FgCode(fg), t4);
    ColorTablesInvertible(fg);
    ReadLitPrefix("m", t5);
    ReadLitPrefix(Csi, t6);
    ReadNumDecimal(BgCode(bg), t7);
    ColorTablesInvertible(bg);
    ReadLitPrefix("m", t8);
    assert t8[|t8| - |Reset|..] == Reset;
    assert t8[..|t8| - |Reset|] == ch;
  }

  /** Every record is read back from the bytes written for it. */
  lemma {:induction false} DecodeEncode(e: Emit)
    ensures Decode(Encode(e)) == Some(e)
  {
    match e
    case ClearScreen =>
    case HideCursor =>
    case Draw(row, col, fg, bg, ch) =>
      assert |Encode(e)| > 6;
      DecodeDrawEncode(row, col, fg, bg, ch);
  }

  /** Distinct records are written as distinct bytes. */
  lemma {:induction false} EncodeInjective(a: Emit, b: Emit)
    ensures Encode(a) == Encode(b) ==> a == b
  {
    DecodeEncode(a);
    DecodeEncode(b);
  }
}
