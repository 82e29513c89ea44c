/** The syntax-error highlighter shared by the `read` and `parse` commands: it
    finds the offset the SQL validator reports with
    `/(?<=\bsyntax error at position\s)(\w+)/`, converts it with `Number`, and
    rebuilds the statement with `replace(/./g, (c, i) => ...)` so that the code
    unit at that one-based offset is followed by the warning marker. */
module Highlighter {
  import opened JsText

  /** The words before the offset, "syntax error at position", without the
      one white-space unit after them. */
  const Phrase: JsString := [
    0x73, 0x79, 0x6E, 0x74, 0x61, 0x78, 0x20, 0x65, 0x72, 0x72, 0x6F, 0x72,
    0x20, 0x61, 0x74, 0x20, 0x70, 0x6F, 0x73, 0x69, 0x74, 0x69, 0x6F, 0x6E]

  /** The marker "⚠️": U+26A0 WARNING SIGN and U+FE0F VARIATION SELECTOR-16. */
  const Marker: JsString := [0x26A0, 0xFE0F]

  /** The look-behind `(?<=\bsyntax error at position\s)` holds at index `p`:
      the phrase and one white-space unit end at `p`, and the phrase starts at
      a word boundary. */
  predicate PrecededByPhrase(m: JsString, p: int) {
    && |Phrase| + 1 <= p <= |m|
    && m[p - |Phrase| - 1..p - 1] == Phrase
    && IsWhiteSpace(m[p - 1])
    && (p == |Phrase| + 1 || !IsWordChar(m[p - |Phrase| - 2]))
  }

  /** The whole regular expression matches starting at index `p`. */
  predicate MatchAt(m: JsString, p: int) {
    0 <= p < |m| && PrecededByPhrase(m, p) && IsWordChar(m[p])
  }

  /** The expression matches nowhere before index `end`. */
  predicate NoMatchBefore(m: JsString, end: int) {
    forall p | 0 <= p < end :: !MatchAt(m, p)
  }

  /** The leftmost index at or after `p` where the expression matches. */
  function FirstMatchFrom(m: JsString, p: nat): (r: Option<nat>)
    requires p <= |m|
    ensures r.None? ==> forall q | p <= q < |m| :: !MatchAt(m, q)
    ensures r.Some? ==> p <= r.value < |m| && MatchAt(m, r.value)
    ensures r.Some? ==> forall q | p <= q < r.value :: !MatchAt(m, q)
    decreases |m| - p
  {
    if p == |m| then None
    else if MatchAt(m, p) then Some(p)
    else FirstMatchFrom(m, p + 1)
  }

  /** `message.match(...)?.[0]`: the captured offset token of the first match,
      a maximal run of word characters, or None when nothing matches. */
  function OffsetToken(message: JsString): (token: Option<JsString>)
    ensures token.None? <==> forall p | 0 <= p < |message| :: !MatchAt(message, p)
    ensures token.Some? ==> |token.value| > 0 && IsWord(token.value)
  {
    match FirstMatchFrom(message, 0)
    case None => None
    case Some(p) => Some(message[p..WordRunEnd(message, p)])
  }

  /** The index the callback compares `i` against: `Number(token) - 1`. NaN and
      Infinity minus one equal no index, which -1 stands for. */
  function TargetIndex(v: NumVal): (k: int)
    ensures v.Finite? && v.value >= 1 ==> k >= 0 && k + 1 == v.value
    ensures !(v.Finite? && v.value >= 1) ==> k < 0
  {
    if v.Finite? then v.value - 1 else -1
  }

  /** `s.replace(/./g, (c, i) => i === target ? c + marker : c)`. The `.`
      visits every code unit except line terminators, which stay as they are.
      The code unit at `target`, when there is one and `.` matches it, gets the
      marker after it; every other code unit is kept in order. */
  function MarkAt(s: JsString, target: int): (r: JsString)
    ensures target < 0 || target >= |s| || IsLineTerminator(s[target]) ==> r == s
    ensures 0 <= target < |s| && !IsLineTerminator(s[target]) ==>
      r == s[..target + 1] + Marker + s[target + 1..]
    decreases |s|
  {
    if s == [] then []
    else
      var last := s[|s| - 1];
      var init := s[..|s| - 1];
      var r := MarkAt(init, target) + (if target == |s| - 1 && !IsLineTerminator(last) then [last] + Marker else [last]);
      assert s == init + [last];
      if 0 <= target < |s| - 1 then
        assert init[..target + 1] == s[..target + 1];
        assert init[target + 1..] + [last] == s[target + 1..];
        r
      else r
  }

  /** The highlighted statement shown to the user for a validator message. */
  function Highlight(message: JsString, statement: JsString): (r: JsString)
    ensures OffsetToken(message).None? ==> r == statement
    ensures OffsetToken(message).Some? ==>
      var n := ToNumber(OffsetToken(message).value);
      && (n.Finite? && 1 <= n.value <= |statement| && !IsLineTerminator(statement[n.value - 1]) ==>
            r == statement[..n.value] + Marker + statement[n.value..])
      && (n.NaN? || n.Infinity? || n.value == 0 || n.value > |statement| || IsLineTerminator(statement[n.value - 1]) ==>
            r == statement)
  {
    match OffsetToken(message)
    case None => statement
    case Some(token) => MarkAt(statement, TargetIndex(ToNumber(token)))
  }

  /** The highlight inserts at most one marker and keeps the statement around
      it: the result is the statement itself, or the statement with the marker
      inserted right after one code unit that is not a line terminator. */
  lemma HighlightInsertsAtMostOneMarker(message: JsString, statement: JsString)
    ensures var r := Highlight(message, statement);
      || r == statement
      || exists k | 0 <= k < |statement| ::
           !IsLineTerminator(statement[k]) && r == statement[..k + 1] + Marker + statement[k + 1..]
  {
    var r := Highlight(message, statement);
    if r != statement {
      var n := ToNumber(OffsetToken(message).value);
      var k := n.value - 1;
      assert !IsLineTerminator(statement[k]) && r == statement[..k + 1] + Marker + statement[k + 1..];
    }
  }

  /** No match starts in `[p, q)`, so the search from `p` gives the search from `q`. */
  lemma {:induction false} FirstMatchSkips(m: JsString, p: nat, q: nat)
    requires p <= q <= |m|
    requires forall i | p <= i < q :: !MatchAt(m, i)
    ensures FirstMatchFrom(m, p) == FirstMatchFrom(m, q)
    decreases q - p
  {
    if p < q {
      FirstMatchSkips(m, p + 1, q);
    }
  }

  /** Inside the phrase, a white-space unit never ends another copy of the
      phrase: each is preceded by a letter other than the phrase's last one. */
  lemma PhraseSpacing()
    ensures |Phrase| == 24
    ensures forall j | 0 <= j < |Phrase| && IsWhiteSpace(Phrase[j]) :: 1 <= j && Phrase[j - 1] != Phrase[|Phrase| - 1]
  {
  }

  /** The phrase and its space, as the validator writes them. */
  lemma PhraseText()
    ensures Str("syntax error at position ") == Phrase + [0x20]
  {
  }

  /** What a look-behind match at `p` says about the two units before `p`. */
  lemma PrecededByPhraseEnd(m: JsString, p: int)
    requires PrecededByPhrase(m, p)
    ensures IsWhiteSpace(m[p - 1]) && m[p - 2] == Phrase[|Phrase| - 1]
  {
    assert m[p - |Phrase| - 1..p - 1][|Phrase| - 1] == m[p - 2];
  }

  /** Behind a prefix too short to hold the phrase, no match can start before
      the offset that follows the phrase. */
  lemma NoMatchInsidePhrase(prefix: JsString, tail: JsString)
    requires |prefix| <= |Phrase|
    ensures NoMatchBefore(prefix + Phrase + [0x20] + tail, |prefix| + |Phrase| + 1)
  {
    var m := prefix + Phrase + [0x20] + tail;
    PhraseSpacing();
    forall p | 0 <= p < |prefix| + |Phrase| + 1 && MatchAt(m, p) ensures false {
      PrecededByPhraseEnd(m, p);
    }
  }

  /** NoMatchInsidePhrase for a message reporting a position. */
  lemma ShortPrefixNoMatch(message: JsString, prefix: JsString, n: nat, rest: JsString)
    requires message == prefix + Phrase + [0x20] + DecimalString(n) + rest
    requires |prefix| <= |Phrase|
    ensures NoMatchBefore(message, |prefix| + |Phrase| + 1)
  {
    assert message == prefix + Phrase + [0x20] + (DecimalString(n) + rest);
    NoMatchInsidePhrase(prefix, DecimalString(n) + rest);
  }

  /** A look-behind match at `p` means the phrase, and so its `x`, occurs in
      the message. */
  lemma PhraseLetterBefore(m: JsString, p: int)
    requires PrecededByPhrase(m, p)
    ensures Unit('x') in m
  {
    var q := p - |Phrase| - 1 + 5;
    assert m[q] == m[p - |Phrase| - 1..p - 1][5] == Phrase[5];
  }

  /** A message without the phrase's `x` reports no position: whatever the
      statement, it is shown unchanged. */
  lemma WithoutPhraseLetterNoToken(message: JsString)
    requires Unit('x') !in message
    ensures OffsetToken(message).None?
  {
    forall p | 0 <= p < |message| && MatchAt(message, p) ensures false {
      PhraseLetterBefore(message, p);
    }
  }

  /** The expression matches right after the phrase and its space when the
      phrase starts at a word boundary and a word character follows. */
  lemma MatchAfterPhrase(prefix: JsString, tail: JsString)
    requires prefix == [] || !IsWordChar(prefix[|prefix| - 1])
    requires tail != [] && IsWordChar(tail[0])
    ensures MatchAt(prefix + Phrase + [0x20] + tail, |prefix| + |Phrase| + 1)
  {
    var m := prefix + Phrase + [0x20] + tail;
    var start := |prefix| + |Phrase| + 1;
    assert m[start - |Phrase| - 1..start - 1] == Phrase;
    assert m[start - 1] == 0x20;
    assert prefix != [] ==> m[start - |Phrase| - 2] == prefix[|prefix| - 1];
    assert m[start] == tail[0];
  }

  /** The greedy word run from `start` covers exactly a leading word. */
  lemma WordRunOver(m: JsString, start: nat, word: JsString, rest: JsString)
    requires start + |word| + |rest| == |m|
    requires m[start..] == word + rest
    requires IsWord(word)
    requires rest == [] || !IsWordChar(rest[0])
    ensures WordRunEnd(m, start) == start + |word|
  {
    forall i | start <= i < start + |word| ensures IsWordChar(m[i]) {
      assert m[i] == m[start..][i - start] == word[i - start];
      assert word[i - start] in word;
    }
    assert rest != [] ==> m[start + |word|] == m[start..][|word|] == rest[0];
  }

  /** The offset token of a message holding the phrase and its space followed
      by a word, behind a prefix in which the expression does not match and
      which does not end in a word character, and before text that does not
      start with one, is that whole word. */
  lemma OffsetTokenAfterPhrase(message: JsString, prefix: JsString, word: JsString, rest: JsString)
    requires message == prefix + Phrase + [0x20] + word + rest
    requires NoMatchBefore(message, |prefix| + |Phrase| + 1)
    requires prefix == [] || !IsWordChar(prefix[|prefix| - 1])
    requires |word| > 0 && IsWord(word)
    requires rest == [] || !IsWordChar(rest[0])
    ensures OffsetToken(message) == Some(word)
  {
    assert message == prefix + Phrase + [0x20] + (word + rest);
    FirstMatchAfterPhrase(prefix, word, rest);
  }

  /** The search finds its first match right after the phrase and its space,
      and the greedy capture there is the leading word. */
  lemma FirstMatchAfterPhrase(prefix: JsString, word: JsString, rest: JsString)
    requires NoMatchBefore(prefix + Phrase + [0x20] + (word + rest), |prefix| + |Phrase| + 1)
    requires prefix == [] || !IsWordChar(prefix[|prefix| - 1])
    requires |word| > 0 && IsWord(word)
    requires rest == [] || !IsWordChar(rest[0])
    ensures OffsetToken(prefix + Phrase + [0x20] + (word + rest)) == Some(word)
  {
    var tail := word + rest;
    var m := prefix + Phrase + [0x20] + tail;
    var start := |prefix| + |Phrase| + 1;
    assert IsWordChar(tail[0]) by { assert tail[0] == word[0]; }
    MatchAfterPhrase(prefix, tail);
    assert m[start..] == tail;
    OffsetTokenAt(m, start, word, rest);
  }

  /** When the first match starts at `start` and a word is followed there by
      text that does not start with a word character, that word is the token. */
  lemma OffsetTokenAt(m: JsString, start: nat, word: JsString, rest: JsString)
    requires start <= |m| && MatchAt(m, start)
    requires forall i | 0 <= i < start :: !MatchAt(m, i)
    requires m[start..] == word + rest
    requires IsWord(word)
    requires rest == [] || !IsWordChar(rest[0])
    ensures OffsetToken(m) == Some(word)
  {
    FirstMatchSkips(m, 0, start);
    assert FirstMatchFrom(m, 0) == Some(start);
    WordRunOver(m, start, word, rest);
    assert m[start..start + |word|] == (word + rest)[..|word|] == word;
  }

  /** A validator message "syntax error at position N", behind a prefix in
      which the expression does not match (any prefix too short to hold the
      phrase, such as "Error: ", by NoMatchInsidePhrase) and which does not
      end in a word character, and followed by text that does not start with one,
      marks the statement right after its N-th code unit when that unit exists
      and is not a line terminator, and leaves it unchanged otherwise. */
  lemma HighlightPositionMessage(message: JsString, prefix: JsString, n: nat, rest: JsString, statement: JsString)
    requires message == prefix + Phrase + [0x20] + DecimalString(n) + rest
    requires NoMatchBefore(message, |prefix| + |Phrase| + 1)
    requires prefix == [] || !IsWordChar(prefix[|prefix| - 1])
    requires rest == [] || !IsWordChar(rest[0])
    ensures 1 <= n <= |statement| && !IsLineTerminator(statement[n - 1]) ==>
      Highlight(message, statement) == statement[..n] + Marker + statement[n..]
    ensures n == 0 || n > |statement| || IsLineTerminator(statement[n - 1]) ==>
      Highlight(message, statement) == statement
  {
    NumberOfDecimalString(n);
    OffsetTokenAfterPhrase(message, prefix, DecimalString(n), rest);
    HighlightOfPosition(message, DecimalString(n), n, statement);
  }

  /** Once the token is known to read as the number `n`, the highlight marks
      the `n`-th code unit or leaves the statement as it is. */
  lemma HighlightOfPosition(message: JsString, token: JsString, n: nat, statement: JsString)
    requires OffsetToken(message) == Some(token) && IsWord(token) && ToNumber(token) == Finite(n)
    ensures 1 <= n <= |statement| && !IsLineTerminator(statement[n - 1]) ==>
      Highlight(message, statement) == statement[..n] + Marker + statement[n..]
    ensures n == 0 || n > |statement| || IsLineTerminator(statement[n - 1]) ==>
      Highlight(message, statement) == statement
  {
    assert Highlight(message, statement) == MarkAt(statement, TargetIndex(Finite(n)));
  }

  /** The capture is `\w+`, not digits: "5abc" is captured whole and converts
      to NaN, so the statement is left as it is. */
  lemma NonNumericOffsetLeavesStatement(message: JsString, statement: JsString)
    requires message == Str("syntax error at position ") + Str("5abc")
    ensures Highlight(message, statement) == statement
  {
    TrailingLettersAreNaN();
    PhraseText();
    assert message == [] + Phrase + [0x20] + Str("5abc") + [];
    NoMatchInsidePhrase([], Str("5abc"));
    assert message == [] + Phrase + [0x20] + Str("5abc");
    OffsetTokenAfterPhrase(message, [], Str("5abc"), []);
  }

  /** `Number("5abc")` is NaN. */
  lemma TrailingLettersAreNaN()
    ensures IsWord(Str("5abc")) && ToNumber(Str("5abc")) == NaN
  {
    var token := Str("5abc");
    assert token == [0x35, 0x61, 0x62, 0x63];
    assert DigitValue(token[1]) == 10;
  }

  /** `\b` requires a word boundary before the phrase: glued to a preceding
      word character it is not recognised and nothing is highlighted. */
  lemma PhraseInsideWordIsIgnored(message: JsString, statement: JsString)
    requires message == Str("x") + Str("syntax error at position ") + Str("3")
    ensures Highlight(message, statement) == statement
  {
    PhraseText();
    assert message == Str("x") + Phrase + [0x20] + Str("3");
    NoMatchInsidePhrase(Str("x"), Str("3"));
    assert |message| == |Phrase| + 3;
    assert !MatchAt(message, |Phrase| + 2) by { assert message[0] == Unit('x'); }
  }

  /** Only the first occurrence counts: a later position in the same message
      is ignored. */
  lemma FirstPositionWins(message: JsString, statement: JsString)
    requires message == Str("syntax error at position ") + Str("2") + Str(", syntax error at position 3")
    requires 2 <= |statement| && !IsLineTerminator(statement[1])
    ensures Highlight(message, statement) == statement[..2] + Marker + statement[2..]
  {
    assert DecimalString(2) == Str("2");
    PhraseText();
    assert message == [] + Phrase + [0x20] + DecimalString(2) + Str(", syntax error at position 3");
    ShortPrefixNoMatch(message, [], 2, Str(", syntax error at position 3"));
    HighlightPositionMessage(message, [], 2, Str(", syntax error at position 3"), statement);
  }

  /** A message reporting position 5, wrapped in text on both sides, marks the
      fifth code unit of the statement "SELECT* FROM t", its `C`. */
  lemma HighlightExample(message: JsString, statement: JsString)
    requires message == Str("Error: ") + Str("syntax error at position ") + Str("5") + Str(" near token")
    requires statement == Str("SELECT* FROM t")
    ensures Highlight(message, statement) == Str("SELEC") + Marker + Str("T* FROM t")
  {
    assert DecimalString(5) == Str("5");
    ExampleStatement(statement);
    PhraseText();
    assert message == Str("Error: ") + Phrase + [0x20] + DecimalString(5) + Str(" near token");
    assert |Str("Error: ")| == 7;
    ShortPrefixNoMatch(message, Str("Error: "), 5, Str(" near token"));
    HighlightPositionMessage(message, Str("Error: "), 5, Str(" near token"), statement);
  }

  lemma ExampleStatement(statement: JsString)
    requires statement == Str("SELECT* FROM t")
    ensures 5 <= |statement| && !IsLineTerminator(statement[4])
    ensures statement[..5] + Marker + statement[5..] == Str("SELEC") + Marker + Str("T* FROM t")
  {
  }
}
