/** What the commands hand to the chat platform, and the validator's answer
    they react to. The discord.js formatting helpers (`bold`, `codeBlock`,
    `hyperlink`) are kept symbolic: a reply's content is the sequence of
    formatted pieces that the source concatenates. */
module Replies {
  import opened JsText
  import Highlighter

  datatype Segment =
    | Plain(text: JsString)
    | Bold(text: JsString)
    | CodeBlock(text: JsString)

  type Content = seq<Segment>

  /** The outcome of `sqlparser.normalize(statement)` when it resolves: the
      normalised statements and the statement type ("read", "write", ...).
      When it rejects, the model holds the thrown error instead. */
  datatype Normalized = Normalized(statements: seq<JsString>, kind: JsString)

  /** `bold("Invalid: ") + error + codeBlock(statement)` after the statement
      went through the highlighter; both commands reply with it on failure. */
  function InvalidContent(message: JsString, statement: JsString): (c: Content)
    ensures |c| == 3
    ensures c[0] == Bold(Str("Invalid: ")) && c[1] == Plain(message)
    ensures c[2] == CodeBlock(Highlighter.Highlight(message, statement))
  {
    [Bold(Str("Invalid: ")), Plain(message), CodeBlock(Highlighter.Highlight(message, statement))]
  }
}
