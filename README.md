# tableland-bot core, modelled in Dafny

tableland-bot is a Discord bot for the Tableland network. This project models
its core:

- **The `interactionCreate` dispatcher** routes a chat-input slash command to
  the registered command of that name. It logs a missing command or a
  command's failure, and never rethrows.
- **The `parse` command** runs the SQL validator on a statement. It answers,
  visible only to the user who asked, whether the statement is valid.
- **The `read` command** works out the table and the chain that a read query
  addresses:
  - the table name is the word after the first `FROM`;
  - its last two `_`-separated parts are the chain id and the table id;
  - the chain is the supported chain whose numeric id matches.

  It then reads the table and answers with an embed. The embed shows a sample
  row, the schema, the row and column counts, the creation date, the chain's
  name and links to the gateway. Any failure is answered with the error
  message and the statement.
- **The syntax-error highlighter** is shared by both commands. When the error
  message reports `syntax error at position N`, it puts the warning marker
  `⚠️` right after the N-th code unit of the statement.
- **`findColor`** picks the embed colour from ten shades by row-count band.

## Modelling choices

- **Strings are sequences of UTF-16 code units** (`JsText.CodeUnit`), because
  `charAt`, `length`, `replace(/./g)` and non-unicode regular expressions
  work on code units.
- **Regular expressions are predicates.**
  - `\w` is the ASCII word characters.
  - `\s` is ECMAScript white space plus the line terminators.
  - `.` matches everything except `\n`, `\r`, U+2028 and U+2029.
  - A search finds the leftmost match; `\w+` is greedy.
  - `/FROM (\w+)/i` folds only ASCII letters, which is all that non-unicode
    `/i` does for the letters of `FROM`.
- **`Number(s)` is modelled for the strings that reach it.** These are always
  runs of word characters:
  - the empty string gives 0;
  - `Infinity` gives Infinity;
  - `0x`/`0b`/`0o` literals and decimal digits with an optional exponent give
    their value;
  - everything else gives NaN.
- **Values are exact integers.** Doubles differ only above 2^53, far beyond
  any string index or chain id.
- **Outside calls become parameters.** Each one is a value the operation
  receives: the validator, `connect`, the table read, `encodeURIComponent`,
  the metadata and schema requests, and the registered commands' `execute`.
- **Errors.** A thrown error is its `name` and `message`. `new Error(err)`
  in `readTableland` takes `String(err)` as the new message: the original
  name, ": " and the original message. A `read` failure raised before or
  during the table read therefore reaches the user as `Error: <message>`
  when it was an `Error`, and behind its own name otherwise. For example, a
  statement without FROM is answered with
  `TypeError: Cannot read properties of null (reading '1')`. A
  `TypeError` raised by the JavaScript engine carries V8's wording.
- **Formatting is symbolic.** The discord.js helpers `bold` and `codeBlock`
  become the segments of a reply's content.
- **Failures the user sees.**
  - On a missing command or a failing command, the dispatcher only logs
    (`console.error`). It sends the user no reply of its own.
  - A connection or request failure in `read` gets the same "Invalid:" reply
    as any other error, showing the error's message.
  - The `editReply` that sends the embed sits inside `read`'s `try`. When
    it rejects, the `catch` sends a second reply with that error's message.

## Model

| member | source | states |
|---|---|---|
| JsText.ErrorToString | commands/read.js:68-70 | `String(err)` is the name, ": ", then the message; with an empty name it is the message, with an empty message the name |
| JsText.WordRunEnd | commands/parse.js:25 | the greedy `\w+` run from a position ends at the first non-word unit or at the end |
| JsText.Split | commands/read.js:23 | `split("_")` gives at least one piece, none holding the separator, and joining the pieces back gives the string |
| JsText.SplitJoin | commands/read.js:23 | splitting a join of separator-free pieces gives back the pieces |
| JsText.ToNumber | commands/read.js:29 | `Number` of a word is Infinity exactly for "Infinity", and a finite value only for text starting with a decimal digit |
| JsText.DecimalString | commands/parse.js:28 | the decimal numeral of n is non-empty, all digits, and has value n |
| JsText.NumberOfDecimalString | commands/parse.js:28 | `Number(String(n)) == n` for every non-negative integer |
| Highlighter.FirstMatchFrom | commands/parse.js:24-26 | the position-regex search returns the leftmost match at or after a position, or reports that there is none |
| Highlighter.OffsetToken | commands/parse.js:24-27 | there is no token exactly when the expression matches nowhere; a token is a non-empty word |
| Highlighter.TargetIndex | commands/parse.js:28-31 | a position N of at least 1 is compared with index N-1; position 0, NaN and Infinity compare with no index at all |
| Highlighter.MarkAt | commands/parse.js:29-32 | `replace(/./g, ...)` inserts the marker after the unit at the target when that unit exists and is not a line terminator, and otherwise returns the statement unchanged |
| Highlighter.Highlight | commands/parse.js:24-33 | no reported position leaves the statement; position N in 1..length marks the N-th unit; 0, too large, NaN, Infinity or a line terminator leave it unchanged |
| Highlighter.HighlightInsertsAtMostOneMarker | commands/read.js:189-194 | the result is the statement, or the statement with one marker after a non-terminator unit |
| Highlighter.FirstMatchSkips | commands/parse.js:24-26 | the search skips a stretch with no match |
| Highlighter.WithoutPhraseLetterNoToken | commands/read.js:183-187 | a message without the phrase's `x` reports no position |
| Highlighter.OffsetTokenAfterPhrase | commands/read.js:183-189 | after "syntax error at position ", behind a prefix without a match that does not end in a word character, the token is the whole following word |
| Highlighter.HighlightPositionMessage | commands/read.js:183-195 | a message reporting N, behind a prefix without a match, marks the N-th unit when it exists and is not a line terminator, and otherwise leaves the statement unchanged |
| Highlighter.NoMatchInsidePhrase | commands/read.js:183-185 | behind a prefix too short to hold the phrase, no match starts before the offset that follows the phrase |
| Highlighter.HighlightOfPosition | commands/parse.js:28-32 | a token reading as N marks the N-th unit when it exists and is not a line terminator, and otherwise leaves the statement unchanged |
| Highlighter.NonNumericOffsetLeavesStatement | commands/parse.js:28 | a captured "5abc" is NaN, so nothing is marked |
| Highlighter.PhraseInsideWordIsIgnored | commands/parse.js:25 | the phrase glued to a preceding word character is not a match |
| Highlighter.FirstPositionWins | commands/parse.js:24-26 | of two reported positions only the first is used |
| Highlighter.HighlightExample | commands/read.js:189-194 | position 5 in "SELECT* FROM t" puts the marker after the `C` |
| Replies.InvalidContent | commands/read.js:198 | the failure reply is the bold "Invalid: ", the message, and a code block with the highlighted statement |
| ParseCommand.Execute | commands/parse.js:14-42 | the reply is always ephemeral; it is the fixed "valid" text exactly when the validator accepted; otherwise it shows the message and the highlighted statement |
| ParseCommand.ValidReplyIgnoresStatement | commands/parse.js:36-41 | an accepted statement gets the same reply whatever it is |
| ParseCommand.InvalidWithoutPositionShowsStatement | commands/parse.js:21-39 | a rejection without a position shows the statement as typed |
| ParseCommand.InvalidWithPositionMarksStatement | commands/parse.js:21-39 | a rejection "syntax error at position N" marks the N-th unit |
| FindColor.ColorIndex | utils/findColor.js:15-48 | the chosen index is one of the ten, and its band holds the row count |
| FindColor.FindColor | utils/findColor.js:15-50 | the colour is one of the ten; fewer than 27 rows gives the first and 60000 or more the last |
| FindColor.BandDeterminesIndex | utils/findColor.js:17-48 | a row count inside band k selects band k |
| FindColor.ColorIndexMonotone | utils/findColor.js:17-48 | more rows never select a lower band |
| FindColor.ParseColor | utils/findColor.js:2-13 | each colour string is "0x" and six hexadecimal digits, with the listed value |
| FindColor.EmbedColor | commands/read.js:109-126 | `parseInt(findColor(rows).toString(16), 16)` is the numeric value of the chosen shade |
| FindColor.EmbedColorMonotone | utils/findColor.js:2-48 | the embed colour never decreases as the row count grows |
| InteractionCreate.Execute | events/interactionCreate.js:6-27 | non-chat input is ignored; an unknown name logs "No command matching ..." and runs nothing; a known name runs that command once; a rejection is logged with the name and the error and never escapes |
| InteractionCreate.NonChatInputIgnoresRegistry | events/interactionCreate.js:8 | non-chat input is dropped whatever the registry and the commands |
| InteractionCreate.BotRegistry | index.js:19-22 | the registry holds exactly "read", "parse" and "rigs-stats" |
| InteractionCreate.BotRegistryRoutes | events/interactionCreate.js:10-18 | with the start-up registry, `/parse` runs the parse command once and an unregistered name runs nothing |
| ReadCommand.FirstFrom | commands/read.js:20 | the FROM search returns the leftmost match at or after a position |
| ReadCommand.TableNameOf | commands/read.js:20 | no table name exactly when `/FROM (\w+)/i` matches nowhere; otherwise the whole word after the leftmost match |
| ReadCommand.TableNameOfSelect | commands/read.js:19-20 | "SELECT * FROM name..." names the table `name` |
| ReadCommand.TableIds | commands/read.js:21-25 | the table id is the separator-free tail of the name; the chain id is missing exactly when the name has no `_`, and otherwise is the piece before the last `_` |
| ReadCommand.TableIdsAreWords | commands/read.js:23-25 | the id parts of a word are words |
| ReadCommand.TableIdsOfCanonicalName | commands/read.js:21-25 | `{prefix}_{chainId}_{tableId}` gives back its chain id and table id, whatever the prefix |
| ReadCommand.LastMatch | commands/read.js:27-32 | no entry exactly when no chain id matches; otherwise the last matching entry |
| ReadCommand.FindChainName | commands/read.js:27-33 | the `for..in` loop ends with the name of the last matching chain, or undefined exactly when none matches |
| ReadCommand.Parse | commands/read.js:13-35 | validator errors pass through; a non-read gives "Statement provided is not a read query"; no statement or no FROM gives a TypeError; with a FROM word, success exactly when some supported chain's id matches its chain-id part, and "Invalid chain provided" exactly when none does; success names the FROM table, its id parts and the last matching chain |
| ReadCommand.ParseStatement | commands/read.js:13-35 | the imperative `parse` with its chain loop computes `Parse` |
| ReadCommand.Rethrown | commands/read.js:68-70 | the wrapped error is an `Error` whose message is `String(err)`: the original name, ": " and the message, or whichever of the two is non-empty |
| ReadCommand.ReadTableland | commands/read.js:59-71 | it succeeds exactly when parse, connect and read all succeed; a parse or read error is rethrown wrapped, in that order; a failed connect gives the wrapped "Error connecting to Tableland" |
| ReadCommand.TableSvgUrlDeterminesTable | commands/read.js:94 | the TABLE picture link determines the chain id and the table id |
| ReadCommand.MetadataUrlDeterminesTable | commands/read.js:96 | the metadata link determines the chain id and the table id |
| ReadCommand.ColumnLine | commands/read.js:112-117 | a schema line is the name, a space, the type, a space, and the constraints joined by spaces; the "" branch for no constraints changes nothing |
| ReadCommand.FormatSchema | commands/read.js:111-118 | the schema text is empty exactly when there are no columns |
| ReadCommand.ColumnLineFields | commands/read.js:116 | a schema line splits back into its column's name and type |
| ReadCommand.SchemaLinesRecovered | commands/read.js:111-118 | the schema text splits back into one line per column, in order |
| ReadCommand.ColumnCount | commands/read.js:104 | the column count is the first row's key count; with no row it throws "Cannot convert undefined or null to object" |
| ReadCommand.LookupChain | commands/read.js:159 | `SUPPORTED_CHAINS[name]` is found exactly when some entry has that key |
| ReadCommand.Describe | commands/read.js:93-173 | after the read, the first failing step's error passes through in source order: encoding, metadata, the `Object.keys` TypeError of an empty result, schema, the chain lookup; it succeeds exactly when none fails, and the embed then carries the links, counts, colour, creation time, schema and the chain's phrase |
| ReadCommand.Outcome | commands/read.js:88-179 | `readTableland` errors arrive wrapped and first, then the later errors as thrown; it succeeds exactly when `readTableland` and every request succeed and the read returned rows; a success describes the table named after the first FROM |
| ReadCommand.ParsedChainIsSupported | commands/read.js:27-33 | the chain `parse` settles on is a key of `SUPPORTED_CHAINS`, so the lookup at line 159 finds it |
| ReadCommand.Execute | commands/read.js:84-201 | the `editReply` calls made: on success the query above the embed, followed by an "Invalid:" reply with its error exactly when that call rejects; on failure one reply with the message and the highlighted statement |
| ReadCommand.EmbedDescribesTable | commands/read.js:90-166 | the chain shown matches the number in the table name's chain-id part, and both links use that name's id parts |
| ReadCommand.CanonicalReadAnswered | commands/read.js:84-179 | a read of `{prefix}_{N}_{tableId}` with a supported chain of id N and every outside call succeeding is answered with one embed for that table |
| ReadCommand.ExampleReadAnswered | commands/read.js:84-179 | "SELECT * FROM t_80001_1" with a chain of id 80001 is answered with the embed of `t_80001_1` |
| ReadCommand.NotReadQueryReply | commands/read.js:17-18 | a non-read statement is answered "Error: Statement provided is not a read query" and shown unchanged |
| ReadCommand.NoFromClauseReply | commands/read.js:20 | a read statement without FROM is answered "TypeError: Cannot read properties of null (reading '1')", behind the TypeError's own name and not "Error: ", with the statement unchanged |
| ReadCommand.SyntaxErrorHighlightedThroughWrap | commands/read.js:180-199 | a validator position error still marks the statement behind the added "Error: " |
| ReadCommand.ValidatorErrorReply | commands/read.js:68-70 | a validator `Error` reaches the reply as "Error: " and its message |
| ReadCommand.WrappedPositionHighlight | commands/read.js:183-194 | the position search sees through the "Error: " prefix |
| ReadCommand.RethrownErrorMessage | commands/read.js:69 | `new Error(err)` of an `Error` reads "Error: " and the original message |

## Left out

- Discord and network I/O is not modelled. This covers `deferReply`,
  `editReply`, `reply`, `fetch`, `connect`, `tableland.read`,
  `resultsToObjects` and `console.error` as a side effect. Each call's
  outcome is an input to the model (`ReadCommand.Responses`,
  `InteractionCreate.Execute`'s `run`). The dispatcher's log lines are part
  of its result.
- A failure of `deferReply`, of the `editReply` in `read`'s `catch`, or of
  `parse`'s `reply` is not modelled in the commands. Each lies outside a
  `try`, so it rejects the command, which `InteractionCreate.Execute` covers
  in general.
- The URL of the schema request (`/schema/{tableName}`) is not modelled. Its
  response is an input.
- `sqlparser.normalize` is an input: its result, or the error it threw.
- `encodeURIComponent` is an input, including its `URIError` on a lone
  surrogate.
- `JSON.stringify` of the sample row is not modelled. The embed holds the
  row itself, with its values as text.
- The embed's timestamp (a clock read) and its footer are not modelled.
- The `json` language tag of the code blocks is not modelled.
- The `hyperlink` text "See the TABLE NFT" is not modelled; the embed keeps
  the link's target.
- The contents of the SDK's `SUPPORTED_CHAINS` are a parameter: a sequence
  of chains in `for..in` order. Where key uniqueness matters, it is required
  (`ReadCommand.DistinctNames`).
- A thrown value that is not an `Error` (one without a `message`) is not
  modelled. The model's errors always carry a name and a message.
- JsText.ToNumber: only defined on word strings, the only strings either
  command converts. It does not model doubles above 2^53.
- The commands run concurrently; the model treats each invocation on its
  own.
- commands/rigs.js, the events ready, guildCreate and guildDelete, and
  deploy-commands.js are not part of this model. The `rigs-stats` command
  appears only as a registry entry.
