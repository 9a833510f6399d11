/**
 * The text line that print_pixel writes for one colour: `printf("#%02x%02x%02x\n", r, g, b)`.
 * Imlib2 hands the channels back as C `int`s; `%x` reads each as an `unsigned int`, so a
 * channel is first reinterpreted as an unsigned 32-bit value and then written in lower-case
 * base 16 with at least two digits.
 */
module HexColor {
  import opened Wrappers

  /** A C `int`, the type of the fields of Imlib_Color. */
  type Int32 = x: int | -0x8000_0000 <= x < 0x8000_0000

  /** The colour Imlib2 reports for one pixel (its alpha channel is never printed). */
  datatype Color = Color(red: Int32, green: Int32, blue: Int32)

  /** All three channels lie in 0..255, the range Imlib2 reports them in. */
  predicate InByteRange(c: Color) {
    0 <= c.red < 256 && 0 <= c.green < 256 && 0 <= c.blue < 256
  }

  predicate IsLowerHexDigit(ch: char) {
    '0' <= ch <= '9' || 'a' <= ch <= 'f'
  }

  /** The value of one base-16 digit; upper case is accepted, as strtol does. */
  function DigitValue(ch: char): (d: Option<nat>)
    ensures d.Some? ==> d.value < 16
    ensures IsLowerHexDigit(ch) ==> d.Some?
  {
    if '0' <= ch <= '9' then Some(ch as int - '0' as int)
    else if 'a' <= ch <= 'f' then Some(ch as int - 'a' as int + 10)
    else if 'A' <= ch <= 'F' then Some(ch as int - 'A' as int + 10)
    else None
  }

  /** The lower-case digit `%x` writes for a value below 16. */
  function DigitChar(d: nat): (ch: char)
    requires d < 16
    ensures IsLowerHexDigit(ch)
    ensures DigitValue(ch) == Some(d)
  {
    if d < 10 then ('0' as int + d) as char else ('a' as int + d - 10) as char
  }

  /** The `%x` conversion of an unsigned value: base 16, most significant digit first, no leading zeros. */
  function Hex(n: nat): (s: string)
    ensures 0 < |s|
    ensures forall k :: 0 <= k < |s| ==> IsLowerHexDigit(s[k])
    ensures s[0] == '0' ==> n == 0
    ensures n < 16 <==> |s| == 1
    ensures n < 256 <==> |s| <= 2
    decreases n
  {
    if n < 16 then [DigitChar(n)] else Hex(n / 16) + [DigitChar(n % 16)]
  }

  /** The `%02x` conversion: `%x` padded on the left with '0' to a width of at least two. */
  function Hex02(n: nat): (s: string)
    ensures 2 <= |s|
    ensures forall k :: 0 <= k < |s| ==> IsLowerHexDigit(s[k])
    ensures s[0] == '0' ==> n < 16
    ensures |s| == 2 <==> n < 256
  {
    var h := Hex(n);
    if |h| < 2 then "0" + h else h
  }

  /** How `%x` reads a C `int`: its two's-complement bits as an `unsigned int`. */
  function Unsigned32(x: Int32): (u: nat)
    ensures u < 0x1_0000_0000
    ensures (u - x) % 0x1_0000_0000 == 0
    ensures 0 <= x ==> u == x
  {
    if x < 0 then x + 0x1_0000_0000 else x
  }

  /**
   * The line print_pixel writes for colour c, newline included: '#', the channels, a newline.
   * It is eight characters long exactly when every channel is in 0..255.
   */
  function PixelLine(c: Color): (line: string)
    ensures 8 <= |line| && line[0] == '#' && line[|line| - 1] == '\n'
    ensures |line| == 8 <==> InByteRange(c)
  {
    "#" + Hex02(Unsigned32(c.red)) + Hex02(Unsigned32(c.green)) + Hex02(Unsigned32(c.blue)) + "\n"
  }

  lemma LineDigits(r: string, g: string, b: string)
    requires forall k :: 0 <= k < |r| ==> IsLowerHexDigit(r[k])
    requires forall k :: 0 <= k < |g| ==> IsLowerHexDigit(g[k])
    requires forall k :: 0 <= k < |b| ==> IsLowerHexDigit(b[k])
    ensures var line := "#" + r + g + b + "\n";
      forall k :: 1 <= k < |line| - 1 ==> IsLowerHexDigit(line[k])
  {
    var line := "#" + r + g + b + "\n";
    forall k | 1 <= k < |line| - 1 ensures IsLowerHexDigit(line[k]) {
      if k < 1 + |r| {
        assert line[k] == r[k - 1];
      } else if k < 1 + |r| + |g| {
        assert line[k] == g[k - 1 - |r|];
      } else {
        assert line[k] == b[k - 1 - |r| - |g|];
      }
    }
  }

  /** Reads a non-empty string of base-16 digits back to its value, as base-16 strtol would. */
  function ParseHex(s: string): Option<nat> {
    if s == [] then None else HexValue(s)
  }

  function HexValue(s: string): Option<nat>
    decreases |s|
  {
    if s == [] then Some(0)
    else
      match (HexValue(s[..|s| - 1]), DigitValue(s[|s| - 1]))
      case (Some(v), Some(d)) => Some(16 * v + d)
      case _ => None
  }

  /** Reads a line of the form "#rrggbb\n" back into the colour it describes. */
  function ParseLine(line: string): Option<Color> {
    if |line| != 8 || line[0] != '#' || line[7] != '\n' then None
    else
      match (ParseHex(line[1..3]), ParseHex(line[3..5]), ParseHex(line[5..7]))
      case (Some(r), Some(g), Some(b)) =>
        if r < 256 && g < 256 && b < 256 then Some(Color(r, g, b)) else None
      case _ => None
  }

  /** Reading back the digits `%x` writes gives the value written. */
  lemma {:induction false} HexRoundTrip(n: nat)
    ensures HexValue(Hex(n)) == Some(n)
    decreases n
  {
    var s := Hex(n);
    if n < 16 {
      assert s[..0] == [];
    } else {
      HexRoundTrip(n / 16);
      assert s[..|s| - 1] == Hex(n / 16);
      assert s[|s| - 1] == DigitChar(n % 16);
    }
  }

  /** Reading back the digits `%02x` writes gives the value written: the padding '0' adds nothing. */
  lemma Hex02RoundTrip(n: nat)
    ensures ParseHex(Hex02(n)) == Some(n)
  {
    HexRoundTrip(n);
    var h := Hex(n);
    if |h| < 2 {
      var s := "0" + h;
      assert h[..0] == [] && HexValue(h) == Some(n);
      assert DigitValue(h[0]) == Some(n);
      assert s[..1] == "0" && s[..1][..0] == [];
      assert HexValue(s[..1]) == Some(0);
      assert s[..|s| - 1] == s[..1] && s[|s| - 1] == h[0];
    }
  }

  /**
   * A colour Imlib2 reports in 0..255 is written as '#', then exactly two lower-case digits
   * per channel in the order red, green, blue, then a newline; each pair reads back as its channel.
   */
  lemma PixelLineFormat(c: Color)
    requires InByteRange(c)
    ensures var line := PixelLine(c);
      |line| == 8 && line[0] == '#' && line[7] == '\n'
      && (forall k :: 1 <= k < 7 ==> IsLowerHexDigit(line[k]))
      && ParseHex(line[1..3]) == Some(c.red as nat)
      && ParseHex(line[3..5]) == Some(c.green as nat)
      && ParseHex(line[5..7]) == Some(c.blue as nat)
  {
    var r, g, b := Hex02(c.red), Hex02(c.green), Hex02(c.blue);
    var line := PixelLine(c);
    assert line == "#" + r + g + b + "\n";
    assert line[1..3] == r;
    assert line[3..5] == g;
    assert line[5..7] == b;
    Hex02RoundTrip(c.red);
    Hex02RoundTrip(c.green);
    Hex02RoundTrip(c.blue);
  }

  /**
   * Every character of the line between '#' and the newline is a lower-case hex digit, and the
   * line reads back as the colour exactly when every channel is in 0..255.
   */
  lemma PixelLineRoundTrip(c: Color)
    ensures var line := PixelLine(c);
      forall k :: 1 <= k < |line| - 1 ==> IsLowerHexDigit(line[k])
    ensures ParseLine(PixelLine(c)) == Some(c) <==> InByteRange(c)
  {
    var r, g, b := Hex02(Unsigned32(c.red)), Hex02(Unsigned32(c.green)), Hex02(Unsigned32(c.blue));
    assert PixelLine(c) == "#" + r + g + b + "\n";
    LineDigits(r, g, b);
    if InByteRange(c) {
      PixelLineFormat(c);
    }
  }
}
