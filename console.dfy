/** The ANSI colouring used by the console command listener: colour codes and coloured strings. */
module ConsoleOutMongoDBCommandListener {
  import opened Wrappers

  /** The terminal colours the listener knows. */
  datatype Color = Black | Red | Green | Yellow | Blue | Magenta | Cyan | White | Default

  /** The SGR foreground code of a colour: 30 to 37 in declaration order, and 39 for the default. */
  function FgColorCode(c: Color): (code: nat)
    ensures 30 <= code <= 39 && code != 38
    ensures c == Default <==> code == 39
  {
    match c
    case Black => 30
    case Red => 31
    case Green => 32
    case Yellow => 33
    case Blue => 34
    case Magenta => 35
    case Cyan => 36
    case White => 37
    case Default => 39
  }

  /** The SGR background code of a colour, ten above its foreground code. */
  function BgColorCode(c: Color): (code: nat)
    ensures 40 <= code <= 49 && code != 48
  {
    FgColorCode(c) + 10
  }

  /** The colour whose foreground code is `code`, if there is one. */
  function ColorOfFgCode(code: nat): (c: Option<Color>)
  {
    if code == 30 then Some(Black)
    else if code == 31 then Some(Red)
    else if code == 32 then Some(Green)
    else if code == 33 then Some(Yellow)
    else if code == 34 then Some(Blue)
    else if code == 35 then Some(Magenta)
    else if code == 36 then Some(Cyan)
    else if code == 37 then Some(White)
    else if code == 39 then Some(Default)
    else None
  }

  /** Every colour is recovered from its foreground code, and from its background code less ten,
      so different colours never share a code. */
  lemma ColorCodesDecode(c: Color)
    ensures ColorOfFgCode(FgColorCode(c)) == Some(c)
    ensures ColorOfFgCode(BgColorCode(c) - 10) == Some(c)
  {
  }

  const Esc: char := 27 as char

  /** What `colored` always ends with: back to the default foreground and background. */
  const Reset: string := [Esc] + "[39;49m"

  function DigitChar(d: nat): char
    requires d < 10
  {
    ('0' as int + d) as char
  }

  /** The decimal notation of a number, as Java writes an `int` into a string. */
  function DecimalString(n: nat): (s: string)
    ensures |s| >= 1
    ensures forall i :: 0 <= i < |s| ==> '0' <= s[i] <= '9'
  {
    if n < 10 then [DigitChar(n)] else DecimalString(n / 10) + [DigitChar(n % 10)]
  }

  /** The value of a string of decimal digits. */
  function DecimalValue(s: string): nat
  {
    if s == [] then 0
    else
      var d := s[|s| - 1] as int - '0' as int;
      DecimalValue(s[..|s| - 1]) * 10 + (if 0 <= d < 10 then d else 0)
  }

  /** Reading back the decimal notation of a number gives the number. */
  lemma {:induction false} DecimalRoundTrip(n: nat)
    ensures DecimalValue(DecimalString(n)) == n
  {
    var s := DecimalString(n);
    if n >= 10 {
      DecimalRoundTrip(n / 10);
      assert s[..|s| - 1] == DecimalString(n / 10);
    }
  }

  /** A two-digit number is written with exactly two digits. */
  lemma TwoDigits(n: nat)
    requires 10 <= n < 100
    ensures |DecimalString(n)| == 2
  {
  }

  /** Written out, a colour's background code is its foreground code with the leading 3 turned into a 4. */
  lemma CodeDigits(c: Color)
    ensures var fg, bg := DecimalString(FgColorCode(c)), DecimalString(BgColorCode(c));
      |fg| == 2 && |bg| == 2 && fg[0] == '3' && bg[0] == '4' && fg[1] == bg[1]
  {
  }

  /** `text` between a switch to foreground `fg` and background `bg` and the reset sequence. */
  function Colored(fg: Color, bg: Color, text: string): (s: string)
    ensures |s| == |text| + 16
    ensures s[..2] == [Esc, '['] && s[4] == ';' && s[7] == 'm'
    ensures s[2..4] == DecimalString(FgColorCode(fg)) && s[5..7] == DecimalString(BgColorCode(bg))
    ensures s[8..|s| - 8] == text
    ensures s[|s| - 8..] == Reset
  {
    TwoDigits(FgColorCode(fg));
    TwoDigits(BgColorCode(bg));
    TwoDigits(FgColorCode(Default));
    TwoDigits(BgColorCode(Default));
    [Esc] + "[" + DecimalString(FgColorCode(fg)) + ";" + DecimalString(BgColorCode(bg)) + "m"
      + text
      + [Esc] + "[" + DecimalString(FgColorCode(Default)) + ";" + DecimalString(BgColorCode(Default)) + "m"
  }

  /** `text` on background `bg`, in the default foreground colour. */
  function BgColored(bg: Color, text: string): (s: string)
    ensures |s| == |text| + 16 && s[8..|s| - 8] == text
    ensures s[..2] == [Esc, '['] && s[4] == ';' && s[7] == 'm' && s[|s| - 8..] == Reset
    ensures s[2..4] == "39" && s[5..7] == DecimalString(BgColorCode(bg))
  {
    Colored(Default, bg, text)
  }

  /** Reads a coloured string back into its foreground, background and text, if it has that shape. */
  function ParseColored(s: string): Option<(Color, Color, string)>
  {
    if |s| < 16 || s[..2] != [Esc, '['] || s[4] != ';' || s[7] != 'm' || s[|s| - 8..] != Reset then None
    else
      var fg := ColorOfFgCode(DecimalValue(s[2..4]));
      var bgCode := DecimalValue(s[5..7]);
      var bg := if bgCode >= 10 then ColorOfFgCode(bgCode - 10) else None;
      if fg.None? || bg.None? then None
      else Some((fg.value, bg.value, s[8..|s| - 8]))
  }

  /** A coloured string determines its colours and its text: parsing it gives back all three. */
  lemma ColoredRoundTrip(fg: Color, bg: Color, text: string)
    ensures ParseColored(Colored(fg, bg, text)) == Some((fg, bg, text))
  {
    var s := Colored(fg, bg, text);
    TwoDigits(FgColorCode(fg));
    TwoDigits(BgColorCode(bg));
    assert s[2..4] == DecimalString(FgColorCode(fg));
    assert s[5..7] == DecimalString(BgColorCode(bg));
    DecimalRoundTrip(FgColorCode(fg));
    DecimalRoundTrip(BgColorCode(bg));
    ColorCodesDecode(fg);
    ColorCodesDecode(bg);
  }

  /** Two coloured strings are equal only when their colours and texts are. */
  lemma ColoredInjective(fg1: Color, bg1: Color, t1: string, fg2: Color, bg2: Color, t2: string)
    requires Colored(fg1, bg1, t1) == Colored(fg2, bg2, t2)
    ensures fg1 == fg2 && bg1 == bg2 && t1 == t2
  {
    ColoredRoundTrip(fg1, bg1, t1);
    ColoredRoundTrip(fg2, bg2, t2);
  }
}
