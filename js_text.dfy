/** JavaScript strings as the bot's code sees them: sequences of UTF-16 code
    units, with the character classes of JavaScript regular expressions written
    without the `u` flag, `String.prototype.split` and `Array.prototype.join`
    with a one-unit separator, the `Number` conversion of the word-character
    strings the bot applies it to, and thrown `Error` values. */
module JsText {

  /** One UTF-16 code unit: what `charAt`, `length` and a non-unicode `.` see. */
  newtype CodeUnit = x: int | 0 <= x < 0x1_0000

  type JsString = seq<CodeUnit>

  datatype Option<T> = None | Some(value: T)

  /** A settled JavaScript computation: a value, or the error it threw. */
  datatype Result<T> = Ok(value: T) | Err(error: JsError)

  /** A thrown `Error` object, by its `name` and `message` properties. */
  datatype JsError = JsError(name: JsString, message: JsString)

  /** The code unit of a character of the Basic Multilingual Plane; only used
      on the ASCII literals of the model. */
  function Unit(c: char): CodeUnit {
    if c as int < 0x1_0000 then c as int as CodeUnit else 0xFFFD
  }

  /** A Dafny string literal as a JavaScript string. */
  function Str(s: string): JsString {
    seq(|s|, i requires 0 <= i < |s| => Unit(s[i]))
  }

  /** Converting literals commutes with concatenation. */
  lemma StrConcat(a: string, b: string)
    ensures Str(a + b) == Str(a) + Str(b)
  {
  }

  /** An ASCII character absent from a literal is absent from its JavaScript
      string. */
  lemma StrAvoids(s: string, c: char)
    requires c !in s && c as int < 0x80
    ensures Unit(c) !in Str(s)
  {
    forall i | 0 <= i < |s| ensures Str(s)[i] != Unit(c) {
      assert s[i] != c;
    }
  }

  function Error(message: string): JsError {
    JsError(Str("Error"), Str(message))
  }

  function TypeError(message: string): JsError {
    JsError(Str("TypeError"), Str(message))
  }

  /** `Error.prototype.toString`, which `String(err)` and `new Error(err)` use. */
  function ErrorToString(e: JsError): (s: JsString)
    ensures e.name == [] ==> s == e.message
    ensures e.name != [] && e.message == [] ==> s == e.name
    ensures e.name != [] && e.message != [] ==>
      && |s| == |e.name| + 2 + |e.message|
      && s[..|e.name|] == e.name
      && s[|e.name|..|e.name| + 2] == [0x3A, 0x20]
      && s[|e.name| + 2..] == e.message
  {
    if e.name == [] then e.message
    else if e.message == [] then e.name
    else e.name + Str(": ") + e.message
  }

  // ---------------------------------------------------------------------------
  // Character classes of non-unicode regular expressions

  /** `\w`: ASCII letters, digits and the underscore. */
  predicate IsWordChar(c: CodeUnit) {
    || 0x30 <= c <= 0x39
    || 0x41 <= c <= 0x5A
    || 0x61 <= c <= 0x7A
    || c == 0x5F
  }

  /** A string made of `\w` characters only. */
  predicate IsWord(s: JsString) {
    forall c | c in s :: IsWordChar(c)
  }

  /** The line terminators, which `.` does not match. */
  predicate IsLineTerminator(c: CodeUnit) {
    c == 0x0A || c == 0x0D || c == 0x2028 || c == 0x2029
  }

  /** `\s`: the white space and line terminator code units of ECMAScript. */
  predicate IsWhiteSpace(c: CodeUnit) {
    || c == 0x09 || c == 0x0B || c == 0x0C || c == 0x20 || c == 0xA0
    || c == 0x1680 || 0x2000 <= c <= 0x200A || c == 0x202F || c == 0x205F
    || c == 0x3000 || c == 0xFEFF
    || IsLineTerminator(c)
  }

  /** The end of the longest run of word characters starting at `p`: the
      greedy `\w*` from there. */
  function WordRunEnd(s: JsString, p: nat): (q: nat)
    requires p <= |s|
    ensures p <= q <= |s|
    ensures forall i | p <= i < q :: IsWordChar(s[i])
    ensures q == |s| || !IsWordChar(s[q])
    decreases |s| - p
  {
    if p < |s| && IsWordChar(s[p]) then WordRunEnd(s, p + 1) else p
  }

  // ---------------------------------------------------------------------------
  // split and join with a one-unit separator

  function IndexOf(s: JsString, c: CodeUnit): (i: nat)
    requires c in s
    ensures i < |s| && s[i] == c && c !in s[..i]
  {
    if s[0] == c then 0
    else
      var j := IndexOf(s[1..], c);
      assert s[..j + 1] == [s[0]] + s[1..][..j];
      1 + j
  }

  /** `parts.join(sep)`. */
  function Join(parts: seq<JsString>, sep: CodeUnit): JsString {
    if |parts| == 0 then []
    else if |parts| == 1 then parts[0]
    else parts[0] + [sep] + Join(parts[1..], sep)
  }

  /** `s.split(sep)`: the pieces between the separators, always at least one,
      none holding the separator; joining them back gives `s`. */
  function Split(s: JsString, sep: CodeUnit): (parts: seq<JsString>)
    ensures |parts| >= 1
    ensures forall k | 0 <= k < |parts| :: sep !in parts[k]
    ensures Join(parts, sep) == s
    decreases |s|
  {
    if sep !in s then [s]
    else
      var i := IndexOf(s, sep);
      var rest := Split(s[i + 1..], sep);
      var parts := [s[..i]] + rest;
      assert parts[1..] == rest;
      assert s == s[..i] + [sep] + s[i + 1..];
      parts
  }

  /** Splitting a join recovers the pieces, as long as there is at least one and
      none holds the separator. */
  lemma {:induction false} SplitJoin(parts: seq<JsString>, sep: CodeUnit)
    requires |parts| >= 1
    requires forall k | 0 <= k < |parts| :: sep !in parts[k]
    ensures Split(Join(parts, sep), sep) == parts
    decreases |parts|
  {
    if |parts| >= 2 {
      SplitFirst(parts[0], sep, Join(parts[1..], sep));
      SplitJoin(parts[1..], sep);
      assert parts == [parts[0]] + parts[1..];
    }
  }

  /** Splitting a string that starts with a separator-free piece and a
      separator gives that piece first, then the pieces of the rest. */
  lemma SplitFirst(head: JsString, sep: CodeUnit, rest: JsString)
    requires sep !in head
    ensures Split(head + [sep] + rest, sep) == [head] + Split(rest, sep)
  {
    var s := head + [sep] + rest;
    assert s[|head|] == sep;
    assert s[..|head|] == head;
    var i := IndexOf(s, sep);
    assert s[..i] == head && s[i + 1..] == rest;
  }

  /** Every unit of a piece is in the join. */
  lemma {:induction false} JoinContains(parts: seq<JsString>, sep: CodeUnit, k: nat, c: CodeUnit)
    requires k < |parts| && c in parts[k]
    ensures c in Join(parts, sep)
    decreases |parts|
  {
    if |parts| >= 2 && k >= 1 {
      JoinContains(parts[1..], sep, k - 1, c);
    }
  }

  /** A unit that is neither the separator nor in any piece is not in the join. */
  lemma {:induction false} JoinAvoids(parts: seq<JsString>, sep: CodeUnit, c: CodeUnit)
    requires c != sep
    requires forall k | 0 <= k < |parts| :: c !in parts[k]
    ensures c !in Join(parts, sep)
    decreases |parts|
  {
    if |parts| >= 2 {
      JoinAvoids(parts[1..], sep, c);
    }
  }

  // ---------------------------------------------------------------------------
  // Number() on word-character strings

  /** A JavaScript number as far as the bot uses it: the integers it can be
      given by a word-character string, or NaN, or Infinity. */
  datatype NumVal = Finite(value: nat) | NaN | Infinity

  /** The value of a character as a digit up to base 36 (36 when it is none). */
  function DigitValue(c: CodeUnit): nat {
    if 0x30 <= c <= 0x39 then c as int - 0x30
    else if 0x61 <= c <= 0x7A then c as int - 0x61 + 10
    else if 0x41 <= c <= 0x5A then c as int - 0x41 + 10
    else 36
  }

  predicate AllDigits(s: JsString, radix: nat) {
    forall c | c in s :: DigitValue(c) < radix
  }

  /** The value of a digit string in the given radix, most significant first. */
  function DigitsValue(s: JsString, radix: nat): nat {
    if s == [] then 0 else DigitsValue(s[..|s| - 1], radix) * radix + DigitValue(s[|s| - 1])
  }

  function Pow(b: nat, e: nat): nat {
    if e == 0 then 1 else b * Pow(b, e - 1)
  }

  /** A run of digits of the radix, or NaN when it is empty or holds anything else. */
  function RadixLiteral(digits: JsString, radix: nat): (v: NumVal)
    ensures v != Infinity
  {
    if |digits| > 0 && AllDigits(digits, radix) then Finite(DigitsValue(digits, radix)) else NaN
  }

  predicate IsExponentMark(c: CodeUnit) {
    c == 0x65 || c == 0x45
  }

  /** The index of the first `e` or `E`, or the length when there is none. */
  function ExponentIndex(s: JsString): (k: nat)
    ensures k <= |s|
    ensures forall i | 0 <= i < k :: !IsExponentMark(s[i])
    ensures k < |s| ==> IsExponentMark(s[k])
  {
    if s == [] then 0
    else if IsExponentMark(s[0]) then 0
    else 1 + ExponentIndex(s[1..])
  }

  /** Decimal digits, optionally followed by `e` or `E` and decimal exponent digits. */
  function DecimalLiteral(s: JsString): (v: NumVal)
    ensures v != Infinity
  {
    var k := ExponentIndex(s);
    if k == |s| then RadixLiteral(s, 10)
    else
      match (RadixLiteral(s[..k], 10), RadixLiteral(s[k + 1..], 10))
      case (Finite(m), Finite(e)) => Finite(m * Pow(10, e))
      case _ => NaN
  }

  /** `Number(s)` for a string of word characters, the only strings the bot
      converts. Such a string has no white space, sign or point, so it is
      empty (zero), `Infinity`, a `0x`/`0b`/`0o` literal, or decimal digits
      with an optional exponent; anything else is NaN. */
  function ToNumber(s: JsString): (v: NumVal)
    requires IsWord(s)
    ensures v.Infinity? <==> s == Str("Infinity")
    ensures v.Finite? && s != [] ==> DigitValue(s[0]) < 10
  {
    if s == [] then Finite(0)
    else if s == Str("Infinity") then Infinity
    else if |s| >= 2 && s[0] == 0x30 && (s[1] == 0x78 || s[1] == 0x58) then RadixLiteral(s[2..], 16)
    else if |s| >= 2 && s[0] == 0x30 && (s[1] == 0x62 || s[1] == 0x42) then RadixLiteral(s[2..], 2)
    else if |s| >= 2 && s[0] == 0x30 && (s[1] == 0x6F || s[1] == 0x4F) then RadixLiteral(s[2..], 8)
    else DecimalLiteral(s)
  }

  /** The decimal numeral of `n`, as `String(n)` writes it: a partner of
      `DigitsValue`. */
  function DecimalString(n: nat): (s: JsString)
    ensures |s| > 0 && AllDigits(s, 10)
    ensures DigitsValue(s, 10) == n
  {
    if n < 10 then [(0x30 + n) as CodeUnit]
    else
      var init := DecimalString(n / 10);
      var s := init + [(0x30 + n % 10) as CodeUnit];
      assert s[..|s| - 1] == init;
      s
  }

  /** `Number(String(n)) == n`: the numeral round-trips through the conversion. */
  lemma NumberOfDecimalString(n: nat)
    ensures IsWord(DecimalString(n))
    ensures ToNumber(DecimalString(n)) == Finite(n)
  {
    var s := DecimalString(n);
    forall i | 0 <= i < |s| ensures 0x30 <= s[i] <= 0x39 {
      assert s[i] in s;
    }
    assert IsWord(s);
    assert s != Str("Infinity") by { assert Str("Infinity")[0] == Unit('I'); }
    assert ExponentIndex(s) == |s|;
    assert DecimalLiteral(s) == Finite(n);
  }
}
