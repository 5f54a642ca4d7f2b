/**
 * The SVG serialiser of docs/js/svgbuilder.js: a builder whose `text` (the
 * source's `string` field) starts as the XML/SVG preamble and only grows, one
 * `<circle>` or `<line>` element per stroke, closed by `</svg>`.
 *
 * Numbers are integers here; a JavaScript number is printed in decimal, and
 * `size / 2` of an odd size prints with a trailing ".5".
 */
module SvgBuilder {
  import opened Common

  // ---------------------------------------------------------------- decimal numbers

  /** The character of a decimal digit. */
  function DecDigit(d: int): (c: char)
    requires 0 <= d < 10
    ensures '0' <= c <= '9' && c as int - '0' as int == d
  {
    ('0' as int + d) as char
  }

  /** The decimal digits of n, most significant first, without leading zeros. */
  function NatStr(n: nat): (s: string)
    ensures 1 <= |s| && forall i :: 0 <= i < |s| ==> '0' <= s[i] <= '9'
    ensures n >= 10 <==> |s| >= 2
    decreases n
  {
    if n < 10 then [DecDigit(n)] else NatStr(n / 10) + [DecDigit(n % 10)]
  }

  /** `String(n)` for an integer: a minus sign, then the digits of |n|. */
  function IntStr(n: int): string
  {
    if n < 0 then "-" + NatStr(-n) else NatStr(n)
  }

  /** The value of a string of decimal digits, as a reader of the SVG would parse it. */
  function ParseDec(s: string): int
  {
    if |s| == 0 then 0 else ParseDec(s[..|s| - 1]) * 10 + (s[|s| - 1] as int - '0' as int)
  }

  /** The decimal digits read back give the number. */
  lemma {:induction false} DecimalRoundTrip(n: nat)
    ensures ParseDec(NatStr(n)) == n
    decreases n
  {
    if n >= 10 {
      var s := NatStr(n / 10);
      DecimalRoundTrip(n / 10);
      assert NatStr(n) == s + [DecDigit(n % 10)];
      assert (s + [DecDigit(n % 10)])[..|s|] == s;
    }
  }

  /** `String(size / 2)`: the half of an odd size ends in ".5". */
  function HalfStr(size: int): string
  {
    if size % 2 == 0 then IntStr(size / 2)
    else if size < 0 then "-" + NatStr(-size / 2) + ".5"
    else NatStr(size / 2) + ".5"
  }

  /** A half is printed as its integer part and, for odd sizes, ".5". */
  lemma HalfStrParts(size: int)
    ensures size >= 0 && size % 2 == 0 ==> ParseDec(HalfStr(size)) * 2 == size
    ensures size >= 0 && size % 2 == 1 ==>
      var s := HalfStr(size); s[|s| - 2..] == ".5" && ParseDec(s[..|s| - 2]) * 2 + 1 == size
  {
    if size >= 0 {
      DecimalRoundTrip(size / 2);
      if size % 2 == 1 {
        var d := NatStr(size / 2);
        assert HalfStr(size)[..|HalfStr(size)| - 2] == d;
      }
    }
  }

  // ---------------------------------------------------------------- hexadecimal colours

  /** The character of a hexadecimal digit, lower case as `toString(16)` writes it. */
  function HexDigit(d: int): (c: char)
    requires 0 <= d < 16
  {
    if d < 10 then ('0' as int + d) as char else ('a' as int + d - 10) as char
  }

  /** `n.toString(16)` for n >= 0: lower-case hexadecimal digits without leading zeros. */
  function NatHex(n: nat): (s: string)
    ensures 1 <= |s|
    ensures n < 16 <==> |s| == 1
    ensures 16 <= n < 256 <==> |s| == 2
    decreases n
  {
    if n < 16 then [HexDigit(n)] else NatHex(n / 16) + [HexDigit(n % 16)]
  }

  /** `v.toString(16)` for an integer: a minus sign, then the digits of |v|. */
  function IntHex(v: int): string
  {
    if v < 0 then "-" + NatHex(-v) else NatHex(v)
  }

  /** The two characters `rgbToHex` writes for one component. */
  function HexPair(v: int): (p: string)
  {
    var numStr := IntHex(v);
    if |numStr| < 2 then "0" + numStr else if |numStr| == 2 then numStr else "FF"
  }

  /** The pair of each component, in order. */
  function HexPairList(rgb: seq<int>): (ps: seq<string>)
    ensures |ps| == |rgb|
    ensures forall j :: 0 <= j < |rgb| ==> ps[j] == HexPair(rgb[j])
  {
    seq(|rgb|, j requires 0 <= j < |rgb| => HexPair(rgb[j]))
  }

  /** The strings of `ps` written one after the other. */
  function Joined(ps: seq<string>): string
  {
    if |ps| == 0 then "" else Joined(ps[..|ps| - 1]) + ps[|ps| - 1]
  }

  /** The `rgbToHex` string after the "#": one pair per component, in order. */
  function HexPairs(rgb: seq<int>): string
  {
    Joined(HexPairList(rgb))
  }

  /** The value of a hexadecimal digit, upper or lower case. */
  function HexVal(c: char): int
  {
    if '0' <= c <= '9' then c as int - '0' as int
    else if 'a' <= c <= 'f' then c as int - 'a' as int + 10
    else if 'A' <= c <= 'F' then c as int - 'A' as int + 10
    else 0
  }

  /**
   * Every component takes exactly two characters; a byte is written as its
   * two hexadecimal digits, larger values as "FF", and -15 .. -1 as a minus
   * sign and one digit.
   */
  lemma HexPairCases(v: int)
    ensures |HexPair(v)| == 2
    ensures 0 <= v < 256 ==> HexVal(HexPair(v)[0]) * 16 + HexVal(HexPair(v)[1]) == v
    ensures v >= 256 || v <= -16 ==> HexPair(v) == "FF"
    ensures -16 < v < 0 ==> HexPair(v) == ['-', HexDigit(-v)]
  {
    if 16 <= v < 256 {
      assert NatHex(v) == [HexDigit(v / 16), HexDigit(v % 16)];
    }
  }

  /** Every pair has two characters. */
  lemma HexPairListWidths(rgb: seq<int>)
    ensures forall j :: 0 <= j < |rgb| ==> |HexPairList(rgb)[j]| == 2
  {
    forall j | 0 <= j < |rgb|
      ensures |HexPairList(rgb)[j]| == 2
    {
      HexPairCases(rgb[j]);
    }
  }

  /** Joining two-character strings doubles the count. */
  lemma {:induction false} JoinedLength(ps: seq<string>)
    requires forall j :: 0 <= j < |ps| ==> |ps[j]| == 2
    ensures |Joined(ps)| == 2 * |ps|
  {
    if |ps| > 0 {
      JoinedLength(ps[..|ps| - 1]);
    }
  }

  /** In a join of two-character strings, string i occupies characters 2i and 2i+1. */
  lemma {:induction false} JoinedAt(ps: seq<string>, i: int)
    requires forall j :: 0 <= j < |ps| ==> |ps[j]| == 2
    requires 0 <= i < |ps|
    ensures |Joined(ps)| == 2 * |ps|
    ensures Joined(ps)[2 * i..2 * i + 2] == ps[i]
  {
    JoinedLength(ps);
    var n := |ps| - 1;
    var front, back := Joined(ps[..n]), ps[n];
    JoinedLength(ps[..n]);
    if i < n {
      JoinedAt(ps[..n], i);
      SliceLeft(front, back, 2 * i, 2 * i + 2);
    } else {
      SliceRight(front, back);
    }
  }

  /** `rgbToHex(rgb)` is "#" plus two characters per component. */
  lemma HexPairsLength(rgb: seq<int>)
    ensures |HexPairs(rgb)| == 2 * |rgb|
  {
    HexPairListWidths(rgb);
    JoinedLength(HexPairList(rgb));
  }

  /** Component i occupies characters 2i and 2i+1. */
  lemma HexPairsAt(rgb: seq<int>, i: int)
    requires 0 <= i < |rgb|
    ensures |HexPairs(rgb)| == 2 * |rgb|
    ensures HexPairs(rgb)[2 * i..2 * i + 2] == HexPair(rgb[i])
  {
    HexPairListWidths(rgb);
    JoinedAt(HexPairList(rgb), i);
  }

  /** A colour of bytes reads back from its hex string, component by component. */
  lemma HexColourRoundTrip(rgb: seq<int>, i: int)
    requires 0 <= i < |rgb| && 0 <= rgb[i] < 256
    ensures var s := RgbToHexSpec(rgb);
      |s| == 1 + 2 * |rgb| && s[0] == '#' && HexVal(s[1 + 2 * i]) * 16 + HexVal(s[2 + 2 * i]) == rgb[i]
  {
    HexPairsAt(rgb, i);
    HexPairCases(rgb[i]);
    var s := RgbToHexSpec(rgb);
    assert s[1 + 2 * i] == HexPairs(rgb)[2 * i..2 * i + 2][0];
    assert s[2 + 2 * i] == HexPairs(rgb)[2 * i..2 * i + 2][1];
  }

  /** The string `rgbToHex` returns. */
  function RgbToHexSpec(rgb: seq<int>): string
  {
    "#" + HexPairs(rgb)
  }

  /** `rgbToHex(rgb)`: the loop over the components, appending two characters each. */
  method RgbToHex(rgb: seq<int>) returns (ret: string)
    ensures ret == RgbToHexSpec(rgb)
    ensures |ret| == 1 + 2 * |rgb|
  {
    ret := "#";
    var i := 0;
    while i < |rgb|
      invariant 0 <= i <= |rgb|
      invariant ret == RgbToHexSpec(rgb[..i])
    {
      var numStr := IntHex(rgb[i]);
      if |numStr| < 2 {
        ret := ret + ("0" + numStr);
      } else if |numStr| == 2 {
        ret := ret + numStr;
      } else {
        ret := ret + "FF";
      }
      HexSpecSnoc(rgb, i);
      i := i + 1;
    }
    assert rgb[..i] == rgb;
    HexPairsLength(rgb);
  }

  /** One more component appends its pair. */
  lemma HexSpecSnoc(rgb: seq<int>, i: int)
    requires 0 <= i < |rgb|
    ensures RgbToHexSpec(rgb[..i + 1]) == RgbToHexSpec(rgb[..i]) + HexPair(rgb[i])
  {
    var ps := HexPairList(rgb[..i + 1]);
    assert ps[..i] == HexPairList(rgb[..i]);
  }

  // ---------------------------------------------------------------- the document

  /** A stroke vector `[startX, startY, endX, endY, size, [r, g, b]]`. */
  datatype Stroke = Stroke(startX: int, startY: int, endX: int, endY: int, size: int, color: seq<int>)

  /** The XML declaration and the opening `<svg>` tag. */
  function Preamble(width: int, height: int): string
  {
    "<?xml version=\"1.0\" encoding=\"utf-8\"?>\n"
    + "<svg version=\"1.1\" "
    + "width=\"" + IntStr(width) + "px\" "
    + "height=\"" + IntStr(height) + "px\" "
    + "viewBox=\"0 0 " + IntStr(width) + " " + IntStr(height) + "\">\n"
  }

  const CirclePreamble: string := "<circle "
  const LinePreamble: string := "<line fill=\"none\" "
  const Closing: string := "</svg>\n"

  /** A stroke that starts where it ends: a disc of radius size / 2. */
  function Circle(s: Stroke, size: int): string
  {
    CirclePreamble + CircleAttributes(s, size) + "/>\n"
  }

  function CircleAttributes(s: Stroke, size: int): string
  {
    "cx=\"" + IntStr(s.startX) + "\" "
    + "cy=\"" + IntStr(s.startY) + "\" "
    + "r=\"" + HalfStr(size) + "\" "
    + "fill=\"" + RgbToHexSpec(s.color) + "\""
  }

  /** Any other stroke: a line of width `size`. */
  function Line(s: Stroke, size: int): string
  {
    LinePreamble + LineAttributes(s, size) + "/>\n"
  }

  function LineAttributes(s: Stroke, size: int): string
  {
    "x1=\"" + IntStr(s.startX) + "\" "
    + "y1=\"" + IntStr(s.startY) + "\" "
    + "x2=\"" + IntStr(s.endX) + "\" "
    + "y2=\"" + IntStr(s.endY) + "\" "
    + "stroke=\"" + RgbToHexSpec(s.color) + "\" "
    + "stroke-width=\"" + IntStr(size) + "\" "
    + "stroke-miterlimit=\"10\" "
  }

  function IsPoint(s: Stroke): bool
  {
    s.endX == s.startX && s.endY == s.startY
  }

  /** The element `addStroke` appends for a stroke. */
  function Element(s: Stroke, size: int): string
  {
    if IsPoint(s) then Circle(s, size) else Line(s, size)
  }

  /**
   * A point becomes a `<circle>` and anything else a `<line>`; either way the
   * element is one self-closed tag ending the line.
   */
  lemma ElementKind(s: Stroke, size: int)
    ensures var e := Element(s, size);
      (IsPoint(s) <==> e[..|CirclePreamble|] == CirclePreamble)
      && (!IsPoint(s) <==> e[..|LinePreamble|] == LinePreamble)
      && e[|e| - 3..] == "/>\n"
  {
    var e := Element(s, size);
    assert CirclePreamble[1] != LinePreamble[1];
    if IsPoint(s) {
      assert e[..|CirclePreamble|] == CirclePreamble;
      assert e[1] != LinePreamble[1];
    } else {
      assert e[..|LinePreamble|] == LinePreamble;
      assert e[1] != CirclePreamble[1];
    }
  }

  /** `SVGBuilder(width, height)` and its append-only `string`. */
  class SVGBuilder {
    var text: string

    /** The builder starts with the preamble. */
    constructor(width: int, height: int)
      ensures text == Preamble(width, height)
    {
      text := Preamble(width, height);
    }

    /** `addStroke(strokeVec, size)`: appends one element, keeping all that was written. */
    method AddStroke(s: Stroke, size: int)
      modifies this
      ensures text == old(text) + Element(s, size)
    {
      var element;
      if s.endX == s.startX && s.endY == s.startY {
        var fill := RgbToHex(s.color);
        var attributes := "cx=\"" + IntStr(s.startX) + "\" "
          + "cy=\"" + IntStr(s.startY) + "\" "
          + "r=\"" + HalfStr(size) + "\" "
          + "fill=\"" + fill + "\"";
        element := CirclePreamble + attributes + "/>\n";
      } else {
        var stroke := RgbToHex(s.color);
        var attributes := "x1=\"" + IntStr(s.startX) + "\" "
          + "y1=\"" + IntStr(s.startY) + "\" "
          + "x2=\"" + IntStr(s.endX) + "\" "
          + "y2=\"" + IntStr(s.endY) + "\" "
          + "stroke=\"" + stroke + "\" "
          + "stroke-width=\"" + IntStr(size) + "\" "
          + "stroke-miterlimit=\"10\" ";
        element := LinePreamble + attributes + "/>\n";
      }
      text := text + element;
    }

    /** `finish()`: closes the document and returns all of it. */
    method Finish() returns (svg: string)
      modifies this
      ensures text == old(text) + Closing && svg == text
    {
      text := text + Closing;
      svg := text;
    }
  }
}
