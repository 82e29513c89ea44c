/** The `parse` slash command: it runs the SQL validator on the statement and
    answers, visible only to the invoking user, whether the statement is
    valid, or why not with the reported position highlighted. */
module ParseCommand {
  import opened JsText
  import opened Replies
  import opened Highlighter

  /** The options passed to `interaction.reply`. */
  datatype Reply = Reply(content: Content, ephemeral: bool)

  const ValidContent: Content := [Bold(Str("Valid Tableland SQL!"))]

  /** `parse.execute`: `normalized` is what `sqlparser.normalize(statement)`
      settled to. Exactly one reply is produced, always ephemeral; it is the
      fixed "valid" text exactly when the validator accepted the statement,
      and otherwise shows the validator's message and the highlighted
      statement. */
  function Execute(statement: JsString, normalized: Result<Normalized>): (reply: Reply)
    ensures reply.ephemeral
    ensures normalized.Ok? <==> reply.content == ValidContent
    ensures normalized.Err? ==> reply.content == InvalidContent(normalized.error.message, statement)
  {
    var result := normalized.Ok?;
    if result then Reply(ValidContent, true)
    else Reply(InvalidContent(normalized.error.message, statement), true)
  }

  /** An accepted statement is not echoed back: the reply is the same whatever
      the statement and whatever the validator normalised it to. */
  lemma ValidReplyIgnoresStatement(s1: JsString, s2: JsString, n1: Normalized, n2: Normalized)
    ensures Execute(s1, Ok(n1)) == Execute(s2, Ok(n2))
  {
  }

  /** A rejection whose message reports no position shows the statement in the
      code block exactly as it was typed. */
  lemma InvalidWithoutPositionShowsStatement(statement: JsString, error: JsError)
    requires OffsetToken(error.message).None?
    ensures Execute(statement, Err(error)).content
         == [Bold(Str("Invalid: ")), Plain(error.message), CodeBlock(statement)]
  {
  }

  /** A rejection "syntax error at position N" (possibly followed by text that
      does not start with a word character) shows the statement with the
      marker right after its N-th code unit, when that unit exists and is not
      a line terminator. */
  lemma InvalidWithPositionMarksStatement(statement: JsString, error: JsError, n: nat, rest: JsString)
    requires error.message == Str("syntax error at position ") + DecimalString(n) + rest
    requires rest == [] || !IsWordChar(rest[0])
    requires 1 <= n <= |statement| && !IsLineTerminator(statement[n - 1])
    ensures Execute(statement, Err(error)).content
         == [Bold(Str("Invalid: ")), Plain(error.message), CodeBlock(statement[..n] + Marker + statement[n..])]
  {
    PhraseText();
    assert error.message == [] + Phrase + [0x20] + DecimalString(n) + rest;
    ShortPrefixNoMatch(error.message, [], n, rest);
    HighlightPositionMessage(error.message, [], n, rest, statement);
  }
}
