/** `findColor`: the embed colour for a table with a given number of rows,
    taken from ten shades by row-count band. */
module FindColor {
  import opened JsText

  /** The ten colours, darkest (fewest rows) first, as the hexadecimal strings
      of the source. */
  const Colors: seq<JsString> := [
    Str("0x452858"), Str("0x5A2F5A"), Str("0x6E365B"), Str("0x833D5D"), Str("0x98445E"),
    Str("0xAC4B60"), Str("0xC15261"), Str("0xD65963"), Str("0xEA6064"), Str("0xFF6766")
  ]

  /** The lower bound of every band but the first: band k holds the row counts
      from `Thresholds[k - 1]` (inclusive) to `Thresholds[k]` (exclusive). */
  const Thresholds: seq<int> := [27, 60, 150, 300, 600, 1500, 3000, 15000, 60000]

  /** The `switch (true)` of `findColor`: the first case whose condition holds
      picks the index. The band of the chosen index holds `rows`. */
  function ColorIndex(rows: int): (i: nat)
    ensures i < |Colors|
    ensures i == 0 || Thresholds[i - 1] <= rows
    ensures i == |Thresholds| || rows < Thresholds[i]
  {
    if rows < 9 * 3 then 0
    else if rows < 20 * 3 then 1
    else if rows < 50 * 3 then 2
    else if rows < 100 * 3 then 3
    else if rows < 200 * 3 then 4
    else if rows < 500 * 3 then 5
    else if rows < 1000 * 3 then 6
    else if rows < 5000 * 3 then 7
    else if rows < 20000 * 3 then 8
    else 9  // the last case, `rows >= 20000 * 3`, holds for every integer left
  }

  /** `findColor(rows)`: always one of the ten colours. */
  function FindColor(rows: int): (color: JsString)
    ensures color in Colors
    ensures rows < 27 ==> color == Str("0x452858")
    ensures rows >= 60000 ==> color == Str("0xFF6766")
  {
    Colors[ColorIndex(rows)]
  }

  /** Band membership decides the index: whenever `rows` lies in band `k`,
      band `k` is the one chosen. */
  lemma BandDeterminesIndex(rows: int, k: nat)
    requires k < |Colors|
    requires k == 0 || Thresholds[k - 1] <= rows
    requires k == |Thresholds| || rows < Thresholds[k]
    ensures ColorIndex(rows) == k
  {
  }

  /** More rows never give a lower band. */
  lemma ColorIndexMonotone(r1: int, r2: int)
    requires r1 <= r2
    ensures ColorIndex(r1) <= ColorIndex(r2)
  {
  }

  /** The numeric values of the ten colours, in the same order. */
  const ColorValues: seq<nat> := [
    0x452858, 0x5A2F5A, 0x6E365B, 0x833D5D, 0x98445E,
    0xAC4B60, 0xC15261, 0xD65963, 0xEA6064, 0xFF6766
  ]

  /** The value of six hexadecimal digits, written out. */
  lemma SixHexDigits(s: JsString)
    requires |s| == 6
    ensures DigitsValue(s, 16)
         == ((((DigitValue(s[0]) * 16 + DigitValue(s[1])) * 16 + DigitValue(s[2])) * 16
              + DigitValue(s[3])) * 16 + DigitValue(s[4])) * 16 + DigitValue(s[5])
  {
    forall k | 1 <= k <= 6
      ensures DigitsValue(s[..k], 16) == DigitsValue(s[..k - 1], 16) * 16 + DigitValue(s[k - 1])
    {
      assert s[..k][..k - 1] == s[..k - 1];
    }
    assert s[..6] == s;
    assert s[..0] == [];
  }

  /** `parseInt(color, 16)` for one of the colours: `parseInt` with radix 16
      skips the `0x` prefix and reads the hexadecimal digits after it. */
  lemma ParseColor(i: nat)
    requires i < |Colors|
    ensures |Colors[i]| == 8 && AllDigits(Colors[i][2..], 16)
    ensures DigitsValue(Colors[i][2..], 16) == ColorValues[i]
  {
    var digits := Colors[i][2..];
    SixHexDigits(digits);
    forall c | c in digits ensures DigitValue(c) < 16 {
    }
  }

  /** `parseInt(findColor(rows).toString(16), 16)`, the colour of the embed
      (`toString` on a string returns it unchanged). */
  function EmbedColor(rows: int): (value: nat)
    ensures value == ColorValues[ColorIndex(rows)]
  {
    var color := FindColor(rows);
    ParseColor(ColorIndex(rows));
    DigitsValue(color[2..], 16)
  }

  /** The shades grow brighter with the band, so the embed colour never
      decreases as the row count grows. */
  lemma EmbedColorMonotone(r1: int, r2: int)
    requires r1 <= r2
    ensures EmbedColor(r1) <= EmbedColor(r2)
  {
    ColorIndexMonotone(r1, r2);
  }
}
