/** Colours: `hexToColor` decodes "#RRGGBB"-style text with `Integer.valueOf(…, 16)`
    and `new Color(r, g, b)`, and `getBorderColor` maps a title code to the
    colour of a node's left border. */
module Colors {
  import opened Wrappers
  import Jdk

  /** `java.awt.Color` as its three components. */
  datatype Rgb = Rgb(red: int, green: int, blue: int)

  predicate ValidComponent(v: int) {
    0 <= v <= 255
  }

  /** The exception `hexToColor` throws: `StringIndexOutOfBoundsException`
      from `substring`, `NumberFormatException` from `Integer.valueOf`, or
      `IllegalArgumentException` from the `Color` constructor. */
  datatype ColorError = BadIndex | BadNumber | BadComponent

  /** `hex.replace("#", "")`: every '#' removed. */
  function RemoveHash(s: string): (r: string)
    ensures '#' !in r
    ensures '#' !in s ==> r == s
    ensures |r| <= |s|
  {
    if |s| == 0 then []
    else if s[0] == '#' then RemoveHash(s[1..])
    else [s[0]] + RemoveHash(s[1..])
  }

  lemma {:induction false} RemoveHashConcat(a: string, b: string)
    ensures RemoveHash(a + b) == RemoveHash(a) + RemoveHash(b)
  {
    if |a| > 0 {
      assert (a + b)[0] == a[0] && (a + b)[1..] == a[1..] + b;
      RemoveHashConcat(a[1..], b);
    } else {
      assert a + b == b;
    }
  }

  /** `Character.digit(c, 16)`: a decimal digit of any script, or 'a' to
      'f' in either case, ASCII or fullwidth. */
  function HexDigit(c: char): (r: Option<nat>)
    ensures r.Some? ==> r.value < 16
  {
    if '0' <= c <= '9' then Some(c as nat - '0' as nat)
    else if 'a' <= c <= 'f' then Some(c as nat - 'a' as nat + 10)
    else if 'A' <= c <= 'F' then Some(c as nat - 'A' as nat + 10)
    else if c as int < 0x80 then None
    else Jdk.CharDigit(c, 16)
  }

  /** The ASCII cases above are a shortcut: the digit is the one
      `Character.digit(c, 16)` gives, for every character. */
  lemma HexDigitIsCharDigit(c: char)
    ensures HexDigit(c) == Jdk.CharDigit(c, 16)
  {
    if c as int < 0x80 && !('0' <= c <= '9') && !Jdk.IsLatinLetter(c) {
      Jdk.DecimalFromSpec(c, 0);
      Jdk.DecimalZerosPlaced();
    }
  }

  /** `Integer.valueOf(s, 16)` on a two-character string: an optional sign
      followed by one digit, or two digits. */
  function ParsePair(a: char, b: char): (r: Option<int>)
    ensures r.Some? ==> -15 <= r.value <= 255
    ensures r.Some? && r.value < 0 ==> a == '-'
  {
    if a == '-' then
      (match HexDigit(b) case Some(d) => Some(-(d as int)) case None => None)
    else if a == '+' then
      (match HexDigit(b) case Some(d) => Some(d as int) case None => None)
    else
      match (HexDigit(a), HexDigit(b))
      case (Some(x), Some(y)) => Some(16 * x + y)
      case _ => None
  }

  /** The `k`-th component: `substring(2k, 2k + 2)` then `Integer.valueOf(…, 16)`. */
  function Component(h: string, k: nat): Result<int, ColorError>
    requires k < 3
  {
    if |h| < 2 * k + 2 then Failure(BadIndex)
    else
      match ParsePair(h[2 * k], h[2 * k + 1])
      case Some(v) => Success(v)
      case None => Failure(BadNumber)
  }

  /** `hexToColor(hex)`: the three arguments are evaluated left to right, so
      the first failing component decides the exception; then the constructor
      rejects a negative component. Characters after the sixth are ignored. */
  function HexToColor(hex: string): (r: Result<Rgb, ColorError>)
    ensures r.Success? ==> ValidComponent(r.value.red) && ValidComponent(r.value.green) && ValidComponent(r.value.blue)
    ensures |RemoveHash(hex)| < 2 ==> r == Failure(BadIndex)
  {
    DecodeDigits(RemoveHash(hex))
  }

  /** The three components of the text left once '#' is removed. */
  function DecodeDigits(h: string): (r: Result<Rgb, ColorError>)
    ensures r.Success? ==> ValidComponent(r.value.red) && ValidComponent(r.value.green) && ValidComponent(r.value.blue)
    ensures |h| < 2 ==> r == Failure(BadIndex)
  {
    var red :- Component(h, 0);
    var green :- Component(h, 1);
    var blue :- Component(h, 2);
    if ValidComponent(red) && ValidComponent(green) && ValidComponent(blue) then Success(Rgb(red, green, blue))
    else Failure(BadComponent)
  }

  // ---------------------------------------------------------------------
  // Encoding, the partner of decoding

  function HexChar(d: nat, upper: bool): (c: char)
    requires d < 16
    ensures HexDigit(c) == Some(d)
  {
    if d < 10 then ('0' as int + d) as char
    else if upper then ('A' as int + d - 10) as char
    else ('a' as int + d - 10) as char
  }

  /** Two hex digits for a component. */
  function HexPair(v: int, upper: bool): (s: string)
    requires ValidComponent(v)
    ensures |s| == 2 && '#' !in s
    ensures ParsePair(s[0], s[1]) == Some(v)
  {
    [HexChar(v / 16, upper), HexChar(v % 16, upper)]
  }

  /** "#RRGGBB" in upper or lower case. */
  function ToHex(c: Rgb, upper: bool): string
    requires ValidComponent(c.red) && ValidComponent(c.green) && ValidComponent(c.blue)
  {
    "#" + HexPair(c.red, upper) + HexPair(c.green, upper) + HexPair(c.blue, upper)
  }

  /** Decoding the text of any colour, in either letter case, gives the colour back. */
  lemma HexRoundTrip(c: Rgb, upper: bool)
    requires ValidComponent(c.red) && ValidComponent(c.green) && ValidComponent(c.blue)
    ensures HexToColor(ToHex(c, upper)) == Success(c)
  {
    var body := HexPair(c.red, upper) + HexPair(c.green, upper) + HexPair(c.blue, upper);
    assert ToHex(c, upper) == "#" + body;
    RemoveHashConcat("#", body);
    assert RemoveHash("#") == [] by {
      assert "#"[1..] == [];
    }
    assert '#' !in body;
    var h := RemoveHash(ToHex(c, upper));
    assert h == body;
  }

  /** Only the first six characters left after removing '#' matter. */
  lemma HexIgnoresTail(hex: string, tail: string)
    requires |RemoveHash(hex)| >= 6
    ensures HexToColor(hex + tail) == HexToColor(hex)
  {
    RemoveHashConcat(hex, tail);
    var h, h2 := RemoveHash(hex), RemoveHash(hex + tail);
    assert forall i :: 0 <= i < 6 ==> h2[i] == h[i];
    assert Component(h2, 0) == Component(h, 0);
    assert Component(h2, 1) == Component(h, 1);
    assert Component(h2, 2) == Component(h, 2);
    assert DecodeDigits(h2) == DecodeDigits(h);
  }

  /** Decoding text that has no '#', pair by pair. */
  lemma DecodePlain(h: string, red: int, green: int, blue: int)
    requires |h| >= 6 && '#' !in h
    requires ParsePair(h[0], h[1]) == Some(red)
    requires ParsePair(h[2], h[3]) == Some(green)
    requires ParsePair(h[4], h[5]) == Some(blue)
    ensures HexToColor(h) == if ValidComponent(red) && ValidComponent(green) && ValidComponent(blue)
                             then Success(Rgb(red, green, blue)) else Failure(BadComponent)
  {
  }

  /** The sign quirk of `Integer.valueOf`: "+f" reads as 15 and "-0" as 0. */
  lemma HexSignAccepted()
    ensures HexToColor("+f0000") == Success(Rgb(15, 0, 0))
    ensures HexToColor("-00000") == Success(Rgb(0, 0, 0))
  {
    DecodePlain("+f0000", 15, 0, 0);
    DecodePlain("-00000", 0, 0, 0);
  }

  /** "-1" reads as -1, which the constructor rejects. */
  lemma HexNegativeRejected()
    ensures HexToColor("-10000") == Failure(BadComponent)
  {
    DecodePlain("-10000", -1, 0, 0);
  }

  /** Too few characters fail on the index, characters that are not hex
      digits on the number. */
  lemma HexMalformed()
    ensures HexToColor("#abc") == Failure(BadIndex)
    ensures HexToColor("#zz0000") == Failure(BadNumber)
  {
    HashThenDigits("abc");
    HashThenDigits("zz0000");
    assert "#abc" == "#" + "abc";
    assert "#zz0000" == "#" + "zz0000";
    assert Component("abc", 1) == Failure(BadIndex);
    assert Component("zz0000", 0) == Failure(BadNumber);
  }

  lemma HashThenDigits(h: string)
    requires '#' !in h
    ensures HexToColor("#" + h) == DecodeDigits(h)
  {
    RemoveHashConcat("#", h);
    assert "#"[1..] == [];
  }

  // ---------------------------------------------------------------------
  // getBorderColor

  /** `COLOR_BY_CODE`, with each entry decoded. */
  const BorderColors: map<string, Rgb> := map[
    "9" := Rgb(0x00, 0x44, 0x81),
    "12" := Rgb(0x5B, 0xBE, 0xFF), "40" := Rgb(0x5B, 0xBE, 0xFF),
    "13" := Rgb(0x2D, 0xCC, 0xD3), "39" := Rgb(0x2D, 0xCC, 0xD3),
    "11" := Rgb(0xD8, 0xBE, 0x75), "38" := Rgb(0xD8, 0xBE, 0x75),
    "1" := Rgb(0xF7, 0x89, 0x3B), "37" := Rgb(0xF7, 0x89, 0x3B), "4" := Rgb(0xF7, 0x89, 0x3B)]

  /** "#dddddd". */
  const DefaultBorder := Rgb(0xDD, 0xDD, 0xDD)

  /** Text with one leading '#' decodes as the six characters after it. */
  lemma DecodeLiteral(body: string, red: int, green: int, blue: int)
    requires |body| == 6 && '#' !in body
    requires ParsePair(body[0], body[1]) == Some(red) && ValidComponent(red)
    requires ParsePair(body[2], body[3]) == Some(green) && ValidComponent(green)
    requires ParsePair(body[4], body[5]) == Some(blue) && ValidComponent(blue)
    ensures HexToColor("#" + body) == Success(Rgb(red, green, blue))
  {
    RemoveHashConcat("#", body);
    assert RemoveHash("#") == [] by {
      assert "#"[1..] == [];
    }
    DecodePlain(body, red, green, blue);
  }

  /** The blue entries of `BorderColors` ("9", "12"/"40", "13"/"39") are the
      decodings of the hex literals the table is built from. */
  lemma BlueBordersDecode()
    ensures HexToColor("#004481") == Success(Rgb(0x00, 0x44, 0x81))
    ensures HexToColor("#5BBEFF") == Success(Rgb(0x5B, 0xBE, 0xFF))
    ensures HexToColor("#2DCCD3") == Success(Rgb(0x2D, 0xCC, 0xD3))
  {
    NavyDecodes();
    SkyAndTealDecode();
  }

  lemma NavyDecodes()
    ensures HexToColor("#004481") == Success(Rgb(0x00, 0x44, 0x81))
  {
    DecodeLiteral("004481", 0x00, 0x44, 0x81);
    assert "#004481" == "#" + "004481";
  }

  lemma SkyAndTealDecode()
    ensures HexToColor("#5BBEFF") == Success(Rgb(0x5B, 0xBE, 0xFF))
    ensures HexToColor("#2DCCD3") == Success(Rgb(0x2D, 0xCC, 0xD3))
  {
    DecodeLiteral("5BBEFF", 0x5B, 0xBE, 0xFF);
    assert "#5BBEFF" == "#" + "5BBEFF";
    DecodeLiteral("2DCCD3", 0x2D, 0xCC, 0xD3);
    assert "#2DCCD3" == "#" + "2DCCD3";
  }

  /** The gold ("11"/"38") and orange ("1"/"37"/"4") entries, and the grey default. */
  lemma WarmBordersDecode()
    ensures HexToColor("#D8BE75") == Success(Rgb(0xD8, 0xBE, 0x75))
    ensures HexToColor("#F7893B") == Success(Rgb(0xF7, 0x89, 0x3B))
    ensures HexToColor("#dddddd") == Success(Rgb(0xDD, 0xDD, 0xDD))
  {
    GoldDecodes();
    OrangeAndGreyDecode();
  }

  lemma GoldDecodes()
    ensures HexToColor("#D8BE75") == Success(Rgb(0xD8, 0xBE, 0x75))
  {
    DecodeLiteral("D8BE75", 0xD8, 0xBE, 0x75);
    assert "#D8BE75" == "#" + "D8BE75";
  }

  lemma OrangeAndGreyDecode()
    ensures HexToColor("#F7893B") == Success(Rgb(0xF7, 0x89, 0x3B))
    ensures HexToColor("#dddddd") == Success(Rgb(0xDD, 0xDD, 0xDD))
  {
    DecodeLiteral("F7893B", 0xF7, 0x89, 0x3B);
    assert "#F7893B" == "#" + "F7893B";
    DecodeLiteral("dddddd", 0xDD, 0xDD, 0xDD);
    assert "#dddddd" == "#" + "dddddd";
  }

  /** `getBorderColor(titleCode)`: the table's colour for a listed code, and
      light grey for `null`, the empty string and every other code. */
  function GetBorderColor(titleCode: Option<string>): (r: Rgb)
    ensures titleCode.Some? && titleCode.value in BorderColors ==> r == BorderColors[titleCode.value]
    ensures r == DefaultBorder <==> titleCode.None? || titleCode.value !in BorderColors
  {
    if titleCode.None? || titleCode.value == [] then DefaultBorder
    else if titleCode.value in BorderColors then BorderColors[titleCode.value]
    else DefaultBorder
  }
}
