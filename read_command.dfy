/** The `read` slash command: it works out which Tableland table and chain a
    read query addresses, reads the table, and answers with an embed that
    describes it; on any failure it answers with the error message and the
    statement, with a reported syntax-error position highlighted. */
module ReadCommand {
  import opened JsText
  import opened Replies
  import Highlighter
  import FindColor

  const Underscore: CodeUnit := 0x5F
  const Space: CodeUnit := 0x20
  const Newline: CodeUnit := 0x0A
  const Slash: CodeUnit := 0x2F

  /** One entry of the SDK's `SUPPORTED_CHAINS` object, in the order `for..in`
      visits it: its key, its numeric chain id and its display phrase. */
  datatype Chain = Chain(name: JsString, chainId: nat, phrase: JsString)

  /** What `parse` resolves to: the table's name, the chain-id and table-id
      parts of that name as text, and the key of the chain found for it. */
  datatype TableRef = TableRef(tableName: JsString, chainId: JsString, tableId: JsString, chainName: JsString)

  const NotReadQuery: JsError := Error("Statement provided is not a read query")
  const InvalidChain: JsError := Error("Invalid chain provided")
  const ConnectFailed: JsError := Error("Error connecting to Tableland")
  /** `statements[0].match(...)` when the validator returned no statement. */
  const NoStatement: JsError := TypeError("Cannot read properties of undefined (reading 'match')")
  /** `statements[0].match(...)[1]` when the statement has no FROM clause. */
  const NoFromClause: JsError := TypeError("Cannot read properties of null (reading '1')")
  /** `Object.keys(tableData[0])` when the read returned no row. */
  const NoRows: JsError := TypeError("Cannot convert undefined or null to object")
  /** `SUPPORTED_CHAINS[chainName].phrase` for a key the object does not have. */
  const NoSuchChain: JsError := TypeError("Cannot read properties of undefined (reading 'phrase')")

  // ---------------------------------------------------------------------------
  // The table name: /FROM (\w+)/i

  /** Upper-casing of ASCII letters: the case folding a non-unicode `/i`
      pattern applies to the letters of "FROM". */
  function Upper(c: CodeUnit): CodeUnit {
    if 0x61 <= c <= 0x7A then c - 0x20 else c
  }

  /** `/FROM (\w+)/i` matches at `j`: "FROM" in any case, one space, and at
      least one word character. No word boundary is asked for before "FROM". */
  predicate FromAt(s: JsString, j: int) {
    && 0 <= j && j + 6 <= |s|
    && Upper(s[j]) == 0x46 && Upper(s[j + 1]) == 0x52 && Upper(s[j + 2]) == 0x4F && Upper(s[j + 3]) == 0x4D
    && s[j + 4] == Space
    && IsWordChar(s[j + 5])
  }

  /** The leftmost match at or after `j`. */
  function FirstFrom(s: JsString, j: nat): (r: Option<nat>)
    requires j <= |s|
    ensures r.None? ==> forall i | j <= i < |s| :: !FromAt(s, i)
    ensures r.Some? ==> j <= r.value && FromAt(s, r.value) && forall i | j <= i < r.value :: !FromAt(s, i)
    decreases |s| - j
  {
    if j == |s| then None
    else if FromAt(s, j) then Some(j)
    else FirstFrom(s, j + 1)
  }

  /** `statement.match(/FROM (\w+)/i)?.[1]`: the greedy word after the leftmost
      "FROM ", or None when there is no match. */
  function TableNameOf(statement: JsString): (name: Option<JsString>)
    ensures name.None? <==> forall j | 0 <= j < |statement| :: !FromAt(statement, j)
    ensures name.Some? ==> |name.value| > 0 && IsWord(name.value)
    ensures name.Some? ==> exists j | FromAt(statement, j) ::
      && (forall i | 0 <= i < j :: !FromAt(statement, i))
      && j + 5 + |name.value| <= |statement|
      && statement[j + 5..j + 5 + |name.value|] == name.value
      && (j + 5 + |name.value| == |statement| || !IsWordChar(statement[j + 5 + |name.value|]))
  {
    match FirstFrom(statement, 0)
    case None => None
    case Some(j) =>
      var name := statement[j + 5..WordRunEnd(statement, j + 5)];
      assert forall c | c in name :: IsWordChar(c) by {
        forall c | c in name ensures IsWordChar(c) {
          var k :| 0 <= k < |name| && name[k] == c;
          assert c == statement[j + 5 + k];
        }
      }
      Some(name)
  }

  /** A statement "SELECT * FROM <name>..." names the table `name`. */
  lemma TableNameOfSelect(statement: JsString, name: JsString, rest: JsString)
    requires statement == Str("SELECT * FROM ") + name + rest
    requires |name| > 0 && IsWord(name)
    requires rest == [] || !IsWordChar(rest[0])
    ensures TableNameOf(statement) == Some(name)
  {
    var head := Str("SELECT * FROM ");
    assert head == [0x53, 0x45, 0x4C, 0x45, 0x43, 0x54, 0x20, 0x2A, 0x20, 0x46, 0x52, 0x4F, 0x4D, 0x20];
    assert forall i | 0 <= i < 9 :: statement[i] == head[i];
    assert statement[9..14] == head[9..14];
    assert statement[14] == name[0];
    assert FromAt(statement, 9);
    assert FirstFrom(statement, 0) == Some(9);
    assert statement[14..] == name + rest;
    forall i | 14 <= i < 14 + |name| ensures IsWordChar(statement[i]) {
      assert statement[i] == name[i - 14];
      assert name[i - 14] in name;
    }
    assert rest != [] ==> statement[14 + |name|] == rest[0];
    assert WordRunEnd(statement, 14) == 14 + |name|;
    assert statement[14..14 + |name|] == name;
  }

  // ---------------------------------------------------------------------------
  // The chain-id and table-id parts: tableName.split("_")

  predicate EndsWith(s: JsString, suffix: JsString) {
    |suffix| <= |s| && s[|s| - |suffix|..] == suffix
  }

  /** Joining one more piece appends the separator and that piece. */
  lemma {:induction false} JoinSnoc(parts: seq<JsString>, last: JsString, sep: CodeUnit)
    requires |parts| >= 1
    ensures Join(parts + [last], sep) == Join(parts, sep) + [sep] + last
    decreases |parts|
  {
    if |parts| == 1 {
      assert (parts + [last])[1..] == [last];
    } else {
      assert (parts + [last])[1..] == parts[1..] + [last];
      JoinSnoc(parts[1..], last, sep);
    }
  }

  /** A join of two pieces or more ends with a separator and the last piece. */
  lemma JoinLast(parts: seq<JsString>, sep: CodeUnit)
    requires |parts| >= 2
    ensures Join(parts, sep) == Join(parts[..|parts| - 1], sep) + [sep] + parts[|parts| - 1]
  {
    var n := |parts|;
    assert parts == parts[..n - 1] + [parts[n - 1]];
    JoinSnoc(parts[..n - 1], parts[n - 1], sep);
  }

  /** `parts[parts.length - 2]` and `parts[parts.length - 1]` of
      `name.split("_")`; the first is undefined when there is a single piece. */
  function TableIds(name: JsString): (ids: (Option<JsString>, JsString))
    ensures Underscore !in ids.1 && EndsWith(name, ids.1)
    ensures ids.0.None? <==> Underscore !in name
    ensures ids.0.None? ==> ids.1 == name
    ensures ids.0.Some? ==> Underscore !in ids.0.value
    ensures ids.0.Some? ==>
      || name == ids.0.value + [Underscore] + ids.1
      || EndsWith(name, [Underscore] + ids.0.value + [Underscore] + ids.1)
  {
    var parts := Split(name, Underscore);
    var n := |parts|;
    if n == 1 then
      (None, parts[0])
    else
      JoinLast(parts, Underscore);
      var front := Join(parts[..n - 1], Underscore);
      assert name[|front|] == Underscore;
      TwoLastPieces(name, parts, Underscore);
      (Some(parts[n - 2]), parts[n - 1])
  }

  /** The id parts of a table name matched by `\w+` are words too, the only
      strings the model's `Number` is asked about. */
  lemma TableIdsAreWords(name: JsString)
    requires IsWord(name)
    ensures IsWord(TableIds(name).1)
    ensures TableIds(name).0.Some? ==> IsWord(TableIds(name).0.value)
  {
    var parts := Split(name, Underscore);
    var n := |parts|;
    forall k | 0 <= k < n ensures IsWord(parts[k]) {
      forall c | c in parts[k] ensures IsWordChar(c) {
        JoinContains(parts, Underscore, k, c);
      }
    }
  }

  /** With two pieces or more, the name ends with the last piece, behind
      the one before it and a separator, which is the whole name or follows
      another separator. */
  lemma TwoLastPieces(name: JsString, parts: seq<JsString>, sep: CodeUnit)
    requires |parts| >= 2
    requires name == Join(parts[..|parts| - 1], sep) + [sep] + parts[|parts| - 1]
    ensures EndsWith(name, parts[|parts| - 1])
    ensures
      || name == parts[|parts| - 2] + [sep] + parts[|parts| - 1]
      || EndsWith(name, [sep] + parts[|parts| - 2] + [sep] + parts[|parts| - 1])
  {
    var n := |parts|;
    var init := parts[..n - 1];
    var last := parts[n - 1];
    assert name[|name| - |last|..] == last;
    if n == 2 {
      assert Join(init, sep) == parts[0];
    } else {
      var front := init[..n - 2];
      assert init == front + [parts[n - 2]];
      JoinSnoc(front, parts[n - 2], sep);
      var suffix := [sep] + parts[n - 2] + [sep] + last;
      assert name == Join(front, sep) + suffix;
      assert name[|name| - |suffix|..] == suffix;
    }
  }

  /** A canonical table name `{prefix}_{chainId}_{tableId}` gives back its
      chain-id and table-id parts, whatever the prefix holds. */
  lemma TableIdsOfCanonicalName(prefix: JsString, chainId: JsString, tableId: JsString)
    requires Underscore !in chainId && Underscore !in tableId
    ensures TableIds(prefix + [Underscore] + chainId + [Underscore] + tableId) == (Some(chainId), tableId)
  {
    var name := prefix + [Underscore] + chainId + [Underscore] + tableId;
    var front := Split(prefix, Underscore);
    var parts := front + [chainId] + [tableId];
    JoinSnoc(front, chainId, Underscore);
    JoinSnoc(front + [chainId], tableId, Underscore);
    assert Join(parts, Underscore) == name;
    SplitJoin(parts, Underscore);
  }

  // ---------------------------------------------------------------------------
  // The supported-chain search

  /** `SUPPORTED_CHAINS[chain].chainId === Number(chainId)`: an undefined id
      part converts to NaN, and NaN equals no chain id. */
  predicate ChainMatches(chain: Chain, id: Option<JsString>) {
    id.Some? && IsWord(id.value) && ToNumber(id.value) == Finite(chain.chainId)
  }

  /** Index `i` is the last entry whose chain id matches. */
  predicate IsLastMatch(chains: seq<Chain>, id: Option<JsString>, i: int) {
    && 0 <= i < |chains|
    && ChainMatches(chains[i], id)
    && forall k | i < k < |chains| :: !ChainMatches(chains[k], id)
  }

  /** The entry the loop settles on: the last one that matches, or none. */
  function LastMatch(chains: seq<Chain>, id: Option<JsString>): (r: Option<nat>)
    ensures r.None? <==> forall k | 0 <= k < |chains| :: !ChainMatches(chains[k], id)
    ensures r.Some? ==> IsLastMatch(chains, id, r.value)
  {
    if chains == [] then None
    else if ChainMatches(chains[|chains| - 1], id) then Some(|chains| - 1)
    else LastMatch(chains[..|chains| - 1], id)
  }

  /** The loop over `SUPPORTED_CHAINS` in `parse`: every matching entry
      overwrites `chainName`, so the last match wins; no match leaves it
      undefined. */
  method FindChainName(chains: seq<Chain>, id: Option<JsString>) returns (chainName: Option<JsString>)
    ensures chainName.None? <==> forall k | 0 <= k < |chains| :: !ChainMatches(chains[k], id)
    ensures chainName.Some? ==> exists i :: IsLastMatch(chains, id, i) && chainName.value == chains[i].name
    ensures chainName == (match LastMatch(chains, id) case None => None case Some(i) => Some(chains[i].name))
  {
    chainName := None;
    ghost var last: Option<nat> := None;
    for k := 0 to |chains|
      invariant last == LastMatch(chains[..k], id)
      invariant last.None? ==> chainName.None?
      invariant last.Some? ==> last.value < k && chainName == Some(chains[last.value].name)
    {
      assert chains[..k + 1][..k] == chains[..k];
      if ChainMatches(chains[k], id) {
        chainName := Some(chains[k].name);
        last := Some(k);
      }
    }
    assert chains[..|chains|] == chains;
  }

  // ---------------------------------------------------------------------------
  // parse

  /** `parse(statement)`, given what the validator settled to. A validator
      error passes through; a statement that is not a read, one without a
      FROM clause, and a table name whose chain-id part matches no supported
      chain are refused; otherwise the table and its chain are found. */
  function Parse(normalized: Result<Normalized>, chains: seq<Chain>): (r: Result<TableRef>)
    ensures normalized.Err? ==> r == Err(normalized.error)
    ensures normalized.Ok? && normalized.value.kind != Str("read") ==> r == Err(NotReadQuery)
    ensures r.Ok? ==>
      && normalized.Ok? && normalized.value.kind == Str("read") && |normalized.value.statements| > 0
      && TableNameOf(normalized.value.statements[0]) == Some(r.value.tableName)
      && TableIds(r.value.tableName) == (Some(r.value.chainId), r.value.tableId)
      && exists i :: IsLastMatch(chains, Some(r.value.chainId), i) && chains[i].name == r.value.chainName
    ensures normalized.Ok? && normalized.value.kind == Str("read") && |normalized.value.statements| == 0 ==>
      r == Err(NoStatement)
    ensures normalized.Ok? && normalized.value.kind == Str("read") && |normalized.value.statements| > 0 ==>
      match TableNameOf(normalized.value.statements[0])
      case None => r == Err(NoFromClause)
      case Some(name) =>
        && (r == Err(InvalidChain) <==> forall k | 0 <= k < |chains| :: !ChainMatches(chains[k], TableIds(name).0))
        && (r.Ok? <==> exists k | 0 <= k < |chains| :: ChainMatches(chains[k], TableIds(name).0))
  {
    match normalized
    case Err(e) => Err(e)
    case Ok(n) =>
      if n.kind != Str("read") then Err(NotReadQuery)
      else if |n.statements| == 0 then Err(NoStatement)
      else match TableNameOf(n.statements[0])
        case None => Err(NoFromClause)
        case Some(name) =>
          var ids := TableIds(name);
          match LastMatch(chains, ids.0)
          case None => Err(InvalidChain)
          case Some(i) => Ok(TableRef(name, ids.0.value, ids.1, chains[i].name))
  }

  /** `parse` as the source writes it, with the loop over the chains. */
  method ParseStatement(normalized: Result<Normalized>, chains: seq<Chain>) returns (r: Result<TableRef>)
    ensures r == Parse(normalized, chains)
  {
    if normalized.Err? {
      return Err(normalized.error);
    }
    var n := normalized.value;
    if n.kind != Str("read") {
      return Err(NotReadQuery);
    }
    if |n.statements| == 0 {
      return Err(NoStatement);
    }
    var tableName := TableNameOf(n.statements[0]);
    if tableName.None? {
      return Err(NoFromClause);
    }
    var ids := TableIds(tableName.value);
    var chainName := FindChainName(chains, ids.0);
    if chainName.None? {
      return Err(InvalidChain);
    }
    return Ok(TableRef(tableName.value, ids.0.value, ids.1, chainName.value));
  }

  // ---------------------------------------------------------------------------
  // readTableland

  /** One result row as `resultsToObjects` gives it: column name to value
      (values are kept as their text). */
  type Row = map<JsString, JsString>

  /** What `readTableland` resolves to. */
  datatype TableData = TableData(table: TableRef, rows: seq<Row>)

  /** `new Error(err)`: the caught error becomes the message of a fresh
      `Error`, through `String(err)`. */
  function Rethrown(e: JsError): (w: JsError)
    ensures w.name == Str("Error")
    ensures e.name == [] ==> w.message == e.message
    ensures e.name != [] && e.message == [] ==> w.message == e.name
    ensures e.name != [] && e.message != [] ==>
      && |w.message| == |e.name| + 2 + |e.message|
      && w.message[..|e.name|] == e.name
      && w.message[|e.name|..|e.name| + 2] == [0x3A, 0x20]
      && w.message[|e.name| + 2..] == e.message
  {
    JsError(Str("Error"), ErrorToString(e))
  }

  /** `readTableland(statement)`: `parse`, then connecting to the chain found
      (`connected` says whether `connect` succeeded), then the read itself
      (`response` is how `tableland.read` and `resultsToObjects` settled).
      Every failure on the way is rethrown wrapped in a new `Error`. */
  function ReadTableland(normalized: Result<Normalized>, chains: seq<Chain>, connected: bool,
                         response: Result<seq<Row>>): (r: Result<TableData>)
    ensures r.Ok? <==> Parse(normalized, chains).Ok? && connected && response.Ok?
    ensures r.Ok? ==> r.value.table == Parse(normalized, chains).value && r.value.rows == response.value
    ensures Parse(normalized, chains).Err? ==> r == Err(Rethrown(Parse(normalized, chains).error))
    ensures Parse(normalized, chains).Ok? && !connected ==> r == Err(Rethrown(ConnectFailed))
    ensures Parse(normalized, chains).Ok? && connected && response.Err? ==> r == Err(Rethrown(response.error))
    ensures r.Err? ==> r.error.name == Str("Error")
  {
    match Parse(normalized, chains)
    case Err(e) => Err(Rethrown(e))
    case Ok(table) =>
      if !connected then Err(Rethrown(ConnectFailed))
      else match response
        case Err(e) => Err(Rethrown(e))
        case Ok(rows) => Ok(TableData(table, rows))
  }

  // ---------------------------------------------------------------------------
  // The links shown in the embed

  const RenderBase: JsString := Str("https://render.tableland.xyz/")
  const GatewayBase: JsString := Str("https://testnet.tableland.network/")

  function TableSvgUrl(chainId: JsString, tableId: JsString): JsString {
    RenderBase + chainId + [Slash] + tableId
  }

  function GatewayQueryUrl(encodedStatement: JsString): JsString {
    GatewayBase + Str("query?s=") + encodedStatement
  }

  function MetadataUrl(chainId: JsString, tableId: JsString): JsString {
    GatewayBase + Str("chain/") + chainId + Str("/tables/") + tableId
  }

  /** The path segments after a fixed base can be read back: equal links
      with slash-free segments have the same segments. */
  lemma SegmentsAfterBase(base: JsString, p1: seq<JsString>, p2: seq<JsString>)
    requires |p1| >= 1 && |p2| >= 1
    requires forall k | 0 <= k < |p1| :: Slash !in p1[k]
    requires forall k | 0 <= k < |p2| :: Slash !in p2[k]
    requires base + Join(p1, Slash) == base + Join(p2, Slash)
    ensures p1 == p2
  {
    assert Join(p1, Slash) == (base + Join(p1, Slash))[|base|..];
    assert Join(p2, Slash) == (base + Join(p2, Slash))[|base|..];
    SplitJoin(p1, Slash);
    SplitJoin(p2, Slash);
  }

  /** Chain-id and table-id parts are words, so the TABLE picture link names
      exactly one table: two tables with the same link have the same parts. */
  lemma TableSvgUrlDeterminesTable(c1: JsString, t1: JsString, c2: JsString, t2: JsString)
    requires IsWord(c1) && IsWord(t1) && IsWord(c2) && IsWord(t2)
    requires TableSvgUrl(c1, t1) == TableSvgUrl(c2, t2)
    ensures c1 == c2 && t1 == t2
  {
    assert Join([c1, t1], Slash) == c1 + [Slash] + t1;
    assert Join([c2, t2], Slash) == c2 + [Slash] + t2;
    assert TableSvgUrl(c1, t1) == RenderBase + Join([c1, t1], Slash);
    assert TableSvgUrl(c2, t2) == RenderBase + Join([c2, t2], Slash);
    SegmentsAfterBase(RenderBase, [c1, t1], [c2, t2]);
    assert [c1, t1][0] == c1 && [c1, t1][1] == t1;
  }

  /** Likewise the metadata link "chain/{chainId}/tables/{tableId}". */
  lemma MetadataUrlDeterminesTable(c1: JsString, t1: JsString, c2: JsString, t2: JsString)
    requires IsWord(c1) && IsWord(t1) && IsWord(c2) && IsWord(t2)
    requires MetadataUrl(c1, t1) == MetadataUrl(c2, t2)
    ensures c1 == c2 && t1 == t2
  {
    var base := GatewayBase + Str("chain/");
    var tables := Str("tables");
    TablesSegment();
    MetadataPath(base, tables, c1, t1);
    MetadataPath(base, tables, c2, t2);
    SegmentsAfterBase(base, [c1, tables, t1], [c2, tables, t2]);
    assert [c1, tables, t1][0] == c1 && [c1, tables, t1][2] == t1;
  }

  lemma TablesSegment()
    ensures Str("/tables/") == [Slash] + Str("tables") + [Slash]
    ensures Slash !in Str("tables")
  {
    assert Str("tables") == [0x74, 0x61, 0x62, 0x6C, 0x65, 0x73];
  }

  /** The metadata link is the base followed by three slash-separated segments. */
  lemma MetadataPath(base: JsString, tables: JsString, c: JsString, t: JsString)
    requires base == GatewayBase + Str("chain/") && tables == Str("tables")
    requires Str("/tables/") == [Slash] + tables + [Slash]
    ensures MetadataUrl(c, t) == base + Join([c, tables, t], Slash)
  {
    assert [c, tables, t][1..] == [tables, t] && [tables, t][1..] == [t];
    assert Join([tables, t], Slash) == tables + [Slash] + t;
    assert Join([c, tables, t], Slash) == c + [Slash] + tables + [Slash] + t;
  }

  // ---------------------------------------------------------------------------
  // The schema text and the counts

  /** One entry of the schema endpoint's `columns`. */
  datatype Column = Column(name: JsString, sqlType: JsString, constraints: seq<JsString>)

  /** One line of the formatted schema: the name, the type and the
      constraints joined by spaces, one space apart. The source picks "" for
      an empty constraint list, which is what joining it gives anyway, so an
      unconstrained column keeps a trailing space. */
  function ColumnLine(column: Column): (line: JsString)
    ensures line == column.name + [Space] + column.sqlType + [Space] + Join(column.constraints, Space)
  {
    var constraints := if |column.constraints| > 0 then Join(column.constraints, Space) else [];
    column.name + [Space] + column.sqlType + [Space] + constraints
  }

  function ColumnLines(columns: seq<Column>): seq<JsString> {
    seq(|columns|, i requires 0 <= i < |columns| => ColumnLine(columns[i]))
  }

  /** `tableSchema.columns.map(...).join("\n")`: no text exactly when there
      is no column, since every line holds at least two spaces. */
  function FormatSchema(columns: seq<Column>): (text: JsString)
    ensures text == [] <==> |columns| == 0
  {
    var lines := ColumnLines(columns);
    assert |lines| > 0 ==> |lines[0]| >= 2;
    Join(lines, Newline)
  }

  /** Each line reads back as the column's name, then its type, when neither
      holds a space. */
  lemma ColumnLineFields(column: Column)
    requires Space !in column.name && Space !in column.sqlType
    ensures var fields := Split(ColumnLine(column), Space);
      |fields| >= 2 && fields[0] == column.name && fields[1] == column.sqlType
  {
    var tail := Join(column.constraints, Space);
    assert ColumnLine(column) == column.name + [Space] + (column.sqlType + [Space] + tail);
    SplitFirst(column.name, Space, column.sqlType + [Space] + tail);
    SplitFirst(column.sqlType, Space, tail);
  }

  /** The formatted schema splits back into one line per column, in order,
      when no name, type or constraint holds a line feed. */
  lemma SchemaLinesRecovered(columns: seq<Column>)
    requires |columns| >= 1
    requires forall i | 0 <= i < |columns| ::
      && Newline !in columns[i].name && Newline !in columns[i].sqlType
      && forall k | 0 <= k < |columns[i].constraints| :: Newline !in columns[i].constraints[k]
    ensures Split(FormatSchema(columns), Newline) == ColumnLines(columns)
  {
    var lines := ColumnLines(columns);
    forall i | 0 <= i < |lines| ensures Newline !in lines[i] {
      JoinAvoids(columns[i].constraints, Space, Newline);
    }
    SplitJoin(lines, Newline);
  }

  /** `Object.keys(tableData[0]).length`: the first row's column count. With
      no row `tableData[0]` is undefined and `Object.keys` throws. */
  function ColumnCount(rows: seq<Row>): (r: Result<nat>)
    ensures r.Ok? <==> |rows| > 0
    ensures r.Ok? ==> r.value == |rows[0].Keys|
    ensures r.Err? ==> r.error == NoRows
  {
    if |rows| == 0 then Err(NoRows) else Ok(|rows[0].Keys|)
  }

  /** `SUPPORTED_CHAINS[name]`: the entry with that key, if any. */
  function LookupChain(chains: seq<Chain>, name: JsString): (i: Option<nat>)
    ensures i.None? <==> forall k | 0 <= k < |chains| :: chains[k].name != name
    ensures i.Some? ==> i.value < |chains| && chains[i.value].name == name
  {
    if chains == [] then None
    else if chains[|chains| - 1].name == name then Some(|chains| - 1)
    else LookupChain(chains[..|chains| - 1], name)
  }

  /** The keys of an object are distinct. */
  predicate DistinctNames(chains: seq<Chain>) {
    forall i, j | 0 <= i < j < |chains| :: chains[i].name != chains[j].name
  }

  // ---------------------------------------------------------------------------
  // execute

  /** The embed sent on success (the timestamp and the footer are left out). */
  datatype Embed = Embed(
    color: nat,
    title: JsString,
    url: JsString,
    authorName: JsString,
    authorUrl: JsString,
    dataSample: Row,
    tableSchema: JsString,
    rowCount: nat,
    columnCount: nat,
    createdAt: JsString,
    chain: JsString,
    tableLink: JsString)

  /** What one `editReply` call of `execute` is asked to show. */
  datatype ReadReply =
    | Answered(content: Content, embed: Embed)
    | Failed(content: Content)

  /** How the outside calls `execute` makes settled, in the order it makes
      them: the validator, `connect`, the table read, `encodeURIComponent`,
      the metadata request (its first attribute's value, the creation time),
      the schema request (its columns), and the `editReply` that sends the
      embed (None when it resolved, the error when it rejected). */
  datatype Responses = Responses(
    normalized: Result<Normalized>,
    connected: bool,
    tableRead: Result<seq<Row>>,
    encoded: Result<JsString>,
    createdAt: Result<JsString>,
    schema: Result<seq<Column>>,
    embedReply: Option<JsError>)

  const EmbedTitle: JsString := Str("See more at the Tableland gateway")

  /** The try block of `execute` after `readTableland` resolved: the links,
      the metadata and schema requests, the counts, the colour and the chain's
      phrase, failing with the first error thrown, in the source's order. */
  function Describe(data: TableData, chains: seq<Chain>, encoded: Result<JsString>,
                    createdAt: Result<JsString>, schema: Result<seq<Column>>): (r: Result<Embed>)
    ensures encoded.Err? ==> r == Err(encoded.error)
    ensures encoded.Ok? && createdAt.Err? ==> r == Err(createdAt.error)
    ensures encoded.Ok? && createdAt.Ok? && data.rows == [] ==> r == Err(NoRows)
    ensures encoded.Ok? && createdAt.Ok? && data.rows != [] && schema.Err? ==> r == Err(schema.error)
    ensures (&& encoded.Ok? && createdAt.Ok? && data.rows != [] && schema.Ok?
             && LookupChain(chains, data.table.chainName).None?) ==> r == Err(NoSuchChain)
    ensures r.Ok? <==>
      && encoded.Ok? && createdAt.Ok? && data.rows != [] && schema.Ok?
      && LookupChain(chains, data.table.chainName).Some?
    ensures r.Ok? ==>
      && r.value.authorName == data.table.tableName
      && r.value.authorUrl == MetadataUrl(data.table.chainId, data.table.tableId)
      && r.value.tableLink == TableSvgUrl(data.table.chainId, data.table.tableId)
      && r.value.url == GatewayQueryUrl(encoded.value)
      && r.value.createdAt == Str("<t:") + createdAt.value + Str(":D>")
      && r.value.tableSchema == FormatSchema(schema.value)
    ensures r.Ok? ==>
      && r.value.rowCount == |data.rows|
      && r.value.dataSample == data.rows[0]
      && r.value.columnCount == |r.value.dataSample.Keys|
      && r.value.color == FindColor.EmbedColor(r.value.rowCount)
    ensures r.Ok? ==>
      LookupChain(chains, data.table.chainName).Some?
      && r.value.chain == chains[LookupChain(chains, data.table.chainName).value].phrase
  {
    match encoded
    case Err(e) => Err(e)
    case Ok(encodedStatement) =>
      match createdAt
      case Err(e) => Err(e)
      case Ok(created) =>
        match ColumnCount(data.rows)
        case Err(e) => Err(e)
        case Ok(columnCount) =>
          match schema
          case Err(e) => Err(e)
          case Ok(columns) =>
            var t := data.table;
            match LookupChain(chains, t.chainName)
            case None => Err(NoSuchChain)
            case Some(k) =>
              Ok(Embed(
                color := FindColor.EmbedColor(|data.rows|),
                title := EmbedTitle,
                url := GatewayQueryUrl(encodedStatement),
                authorName := t.tableName,
                authorUrl := MetadataUrl(t.chainId, t.tableId),
                dataSample := data.rows[0],
                tableSchema := FormatSchema(columns),
                rowCount := |data.rows|,
                columnCount := columnCount,
                createdAt := Str("<t:") + created + Str(":D>"),
                chain := chains[k].phrase,
                tableLink := TableSvgUrl(t.chainId, t.tableId)))
  }

  /** The try block of `execute`: the embed, or the first error thrown. Only
      the errors of `readTableland` are wrapped; later ones arrive as thrown.
      A successful answer describes the table named after the first "FROM" of
      the normalised statement. */
  function Outcome(chains: seq<Chain>, io: Responses): (r: Result<Embed>)
    ensures ReadTableland(io.normalized, chains, io.connected, io.tableRead).Err? ==>
      r == Err(ReadTableland(io.normalized, chains, io.connected, io.tableRead).error)
    ensures ReadTableland(io.normalized, chains, io.connected, io.tableRead).Ok? && io.encoded.Err? ==>
      r == Err(io.encoded.error)
    ensures (&& ReadTableland(io.normalized, chains, io.connected, io.tableRead).Ok?
             && io.encoded.Ok? && io.createdAt.Err?) ==> r == Err(io.createdAt.error)
    ensures (&& ReadTableland(io.normalized, chains, io.connected, io.tableRead).Ok?
             && io.encoded.Ok? && io.createdAt.Ok? && io.tableRead.value == []) ==> r == Err(NoRows)
    ensures (&& ReadTableland(io.normalized, chains, io.connected, io.tableRead).Ok?
             && io.encoded.Ok? && io.createdAt.Ok? && io.tableRead.value != [] && io.schema.Err?) ==>
      r == Err(io.schema.error)
    ensures r.Ok? <==>
      && ReadTableland(io.normalized, chains, io.connected, io.tableRead).Ok?
      && io.encoded.Ok? && io.createdAt.Ok? && io.tableRead.value != [] && io.schema.Ok?
    ensures r.Ok? ==>
      && io.normalized.Ok? && |io.normalized.value.statements| > 0 && io.connected
      && io.tableRead.Ok? && |io.tableRead.value| > 0
      && io.encoded.Ok? && io.createdAt.Ok? && io.schema.Ok?
      && TableNameOf(io.normalized.value.statements[0]) == Some(r.value.authorName)
      && r.value.rowCount == |io.tableRead.value|
      && r.value.dataSample == io.tableRead.value[0]
  {
    match ReadTableland(io.normalized, chains, io.connected, io.tableRead)
    case Err(e) => Err(e)
    case Ok(data) =>
      ParsedChainIsSupported(io.normalized, chains);
      Describe(data, chains, io.encoded, io.createdAt, io.schema)
  }

  /** The chain `parse` settles on is a key of `SUPPORTED_CHAINS`, so the
      embed's `SUPPORTED_CHAINS[chainName].phrase` never throws. */
  lemma ParsedChainIsSupported(normalized: Result<Normalized>, chains: seq<Chain>)
    requires Parse(normalized, chains).Ok?
    ensures LookupChain(chains, Parse(normalized, chains).value.chainName).Some?
  {
    var t := Parse(normalized, chains).value;
    var i :| IsLastMatch(chains, Some(t.chainId), i) && chains[i].name == t.chainName;
  }

  /** The content above the embed on success. */
  function QueryContent(statement: JsString): Content {
    [Bold(Str("Query: ")), CodeBlock(statement), Plain([Newline]), Bold(Str("Response: "))]
  }

  /** `read.execute`: the `editReply` calls it makes, in order. On success
      it sends the query above the embed; on failure it shows the error's
      message and the statement, highlighted where the message reports a
      position. The embed's `editReply` sits inside the `try`, so when it
      rejects, the `catch` sends a second reply with that error. */
  function Execute(statement: JsString, chains: seq<Chain>, io: Responses): (replies: seq<ReadReply>)
    ensures 1 <= |replies| <= 2
    ensures Outcome(chains, io).Err? ==>
      replies == [Failed(InvalidContent(Outcome(chains, io).error.message, statement))]
    ensures Outcome(chains, io).Ok? ==>
      && replies[0] == Answered(QueryContent(statement), Outcome(chains, io).value)
      && (|replies| == 2 <==> io.embedReply.Some?)
    ensures |replies| == 2 ==>
      io.embedReply.Some? && replies[1] == Failed(InvalidContent(io.embedReply.value.message, statement))
  {
    match Outcome(chains, io)
    case Err(e) => [Failed(InvalidContent(e.message, statement))]
    case Ok(embed) =>
      var answer := Answered(QueryContent(statement), embed);
      match io.embedReply
      case None => [answer]
      case Some(e) => [answer, Failed(InvalidContent(e.message, statement))]
  }

  /** The embed's table, links and chain agree: the chain shown is a
      supported chain whose id is the number in the table name's chain-id
      part, and both links are built from that name's two id parts. */
  lemma EmbedDescribesTable(chains: seq<Chain>, io: Responses)
    requires DistinctNames(chains)
    requires Outcome(chains, io).Ok?
    ensures var embed := Outcome(chains, io).value;
      var ids := TableIds(embed.authorName);
      && ids.0.Some?
      && embed.authorUrl == MetadataUrl(ids.0.value, ids.1)
      && embed.tableLink == TableSvgUrl(ids.0.value, ids.1)
      && exists k | 0 <= k < |chains| :: chains[k].phrase == embed.chain && ChainMatches(chains[k], ids.0)
  {
    var t := Parse(io.normalized, chains).value;
    var i :| IsLastMatch(chains, Some(t.chainId), i) && chains[i].name == t.chainName;
    var k := LookupChain(chains, t.chainName).value;
    assert k == i;
  }

  /** A read of a canonically named table `{prefix}_{N}_{tableId}` on a
      supported chain with id N is answered with one reply, the embed for that
      table, when every outside call succeeds and the read returned rows. */
  lemma CanonicalReadAnswered(statement: JsString, chains: seq<Chain>, io: Responses,
                              prefix: JsString, n: nat, tableId: JsString, rest: JsString, k: nat)
    requires IsWord(prefix) && IsWord(tableId) && Underscore !in tableId
    requires rest == [] || !IsWordChar(rest[0])
    requires io.normalized == Ok(Normalized(
      [Str("SELECT * FROM ") + (prefix + [Underscore] + DecimalString(n) + [Underscore] + tableId) + rest],
      Str("read")))
    requires k < |chains| && chains[k].chainId == n
    requires io.connected && io.tableRead.Ok? && io.tableRead.value != []
    requires io.encoded.Ok? && io.createdAt.Ok? && io.schema.Ok? && io.embedReply.None?
    ensures var replies := Execute(statement, chains, io);
      && |replies| == 1 && replies[0].Answered?
      && replies[0].embed.authorName == prefix + [Underscore] + DecimalString(n) + [Underscore] + tableId
      && replies[0].embed.tableLink == TableSvgUrl(DecimalString(n), tableId)
      && replies[0].embed.rowCount == |io.tableRead.value|
  {
    var digits := DecimalString(n);
    var name := prefix + [Underscore] + digits + [Underscore] + tableId;
    NumberOfDecimalString(n);
    assert DigitValue(Underscore) == 36;
    assert IsWordChar(Underscore);
    assert IsWord(name);
    TableNameOfSelect(io.normalized.value.statements[0], name, rest);
    TableIdsOfCanonicalName(prefix, digits, tableId);
    assert ChainMatches(chains[k], TableIds(name).0);
    var t := Parse(io.normalized, chains).value;
    assert t.chainId == digits && t.tableId == tableId;
  }

  /** For instance, "SELECT * FROM t_80001_1" with a supported chain whose id
      is 80001 is answered with the embed of table `t_80001_1`. */
  lemma ExampleReadAnswered(statement: JsString, chains: seq<Chain>, io: Responses, k: nat)
    requires io.normalized == Ok(Normalized([Str("SELECT * FROM t_80001_1")], Str("read")))
    requires k < |chains| && chains[k].chainId == 80001
    requires io.connected && io.tableRead.Ok? && io.tableRead.value != []
    requires io.encoded.Ok? && io.createdAt.Ok? && io.schema.Ok? && io.embedReply.None?
    ensures var replies := Execute(statement, chains, io);
      |replies| == 1 && replies[0].Answered? && replies[0].embed.authorName == Str("t_80001_1")
  {
    ExampleTableName();
    CanonicalReadAnswered(statement, chains, io, [0x74], 80001, [0x31], [], k);
  }

  /** "t_80001_1" is the canonical name with prefix "t", chain id 80001 and
      table id "1". */
  lemma ExampleTableName()
    ensures Str("t_80001_1") == [0x74] + [Underscore] + DecimalString(80001) + [Underscore] + [0x31]
    ensures Str("SELECT * FROM t_80001_1") == Str("SELECT * FROM ") + Str("t_80001_1") + []
  {
    ExampleChainDigits();
  }

  lemma ExampleChainDigits()
    ensures DecimalString(80001) == [0x38, 0x30, 0x30, 0x30, 0x31]
  {
    assert DecimalString(8) == [0x38];
    assert DecimalString(80) == [0x38, 0x30];
    assert DecimalString(800) == [0x38, 0x30, 0x30];
    assert DecimalString(8000) == [0x38, 0x30, 0x30, 0x30];
  }

  /** A statement the validator classes as something other than a read is
      answered with the wrapped refusal, and the statement is shown as typed. */
  lemma NotReadQueryReply(statement: JsString, chains: seq<Chain>, io: Responses)
    requires io.normalized.Ok? && io.normalized.value.kind != Str("read")
    ensures Execute(statement, chains, io) == [Failed([
      Bold(Str("Invalid: ")),
      Plain(Str("Error: ") + Str("Statement provided is not a read query")),
      CodeBlock(statement)])]
  {
    var refusal := Str("Statement provided is not a read query");
    var message := Str("Error: ") + refusal;
    assert Outcome(chains, io) == Err(Rethrown(NotReadQuery));
    RethrownErrorMessage(refusal);
    ErrorPrefixFacts();
    RefusalHasNoX();
    assert Unit('x') !in message;
    Highlighter.WithoutPhraseLetterNoToken(message);
  }

  /** A read statement without a FROM clause is answered with the engine's
      TypeError behind its own name ("TypeError: Cannot read properties of
      null (reading '1')"): `new Error(err)` keeps `String(err)`. */
  lemma NoFromClauseReply(statement: JsString, chains: seq<Chain>, io: Responses, normalized: JsString)
    requires io.normalized == Ok(Normalized([normalized], Str("read")))
    requires TableNameOf(normalized).None?
    ensures Execute(statement, chains, io) == [Failed([
      Bold(Str("Invalid: ")),
      Plain(Str("TypeError") + [0x3A, 0x20] + NoFromClause.message),
      CodeBlock(statement)])]
  {
    var message := Str("TypeError") + [0x3A, 0x20] + NoFromClause.message;
    assert Outcome(chains, io) == Err(Rethrown(NoFromClause));
    NoFromClauseWrapped();
    NoFromClauseHasNoX();
    Highlighter.WithoutPhraseLetterNoToken(message);
  }

  /** The wrapped message has no `x`, so it cannot hold the position phrase. */
  lemma NoFromClauseHasNoX()
    ensures Unit('x') !in Str("TypeError") + [0x3A, 0x20] + NoFromClause.message
  {
    StrAvoids("TypeError", 'x');
    StrAvoids("Cannot read properties of null (reading '1')", 'x');
  }

  /** The wrapped message is the TypeError's name, ": " and its message. */
  lemma NoFromClauseWrapped()
    ensures Rethrown(NoFromClause).message == Str("TypeError") + [0x3A, 0x20] + NoFromClause.message
  {
    var w := Rethrown(NoFromClause).message;
    var e := NoFromClause;
    assert e.name != [] && e.message != [] by {
      var text := "Cannot read properties of null (reading '1')";
      assert |text| > 0;
      assert e.message == Str(text) && |e.message| == |text|;
      assert e.name[0] == Unit('T');
    }
    assert w == w[..|e.name|] + w[|e.name|..|e.name| + 2] + w[|e.name| + 2..];
  }

  /** The validator's "syntax error at position N" reaches the user behind
      the "Error: " that `readTableland` adds, and the highlighter still finds
      it: the N-th code unit of the statement is marked. */
  lemma SyntaxErrorHighlightedThroughWrap(statement: JsString, chains: seq<Chain>, io: Responses,
                                           n: nat, rest: JsString)
    requires io.normalized == Err(JsError(Str("Error"), Str("syntax error at position ") + DecimalString(n) + rest))
    requires rest == [] || !IsWordChar(rest[0])
    requires 1 <= n <= |statement| && !IsLineTerminator(statement[n - 1])
    ensures Execute(statement, chains, io) == [Failed([
      Bold(Str("Invalid: ")),
      Plain(Str("Error: ") + io.normalized.error.message),
      CodeBlock(statement[..n] + Highlighter.Marker + statement[n..])])]
  {
    var reported := io.normalized.error.message;
    Highlighter.PhraseText();
    assert reported == Highlighter.Phrase + [0x20] + DecimalString(n) + rest;
    ValidatorErrorReply(statement, chains, io);
    WrappedPositionHighlight(reported, n, rest, statement);
  }

  /** Any validator rejection of kind `Error` is answered with its message
      behind "Error: ". */
  lemma ValidatorErrorReply(statement: JsString, chains: seq<Chain>, io: Responses)
    requires io.normalized.Err? && io.normalized.error.name == Str("Error") && io.normalized.error.message != []
    ensures Execute(statement, chains, io)
         == [Failed(InvalidContent(Str("Error: ") + io.normalized.error.message, statement))]
  {
    assert Outcome(chains, io) == Err(Rethrown(io.normalized.error));
    RethrownErrorMessage(io.normalized.error.message);
  }

  /** Behind "Error: ", a reported position still marks the statement. */
  lemma WrappedPositionHighlight(reported: JsString, n: nat, rest: JsString, statement: JsString)
    requires reported == Highlighter.Phrase + [0x20] + DecimalString(n) + rest
    requires rest == [] || !IsWordChar(rest[0])
    requires 1 <= n <= |statement| && !IsLineTerminator(statement[n - 1])
    ensures Highlighter.Highlight(Str("Error: ") + reported, statement)
         == statement[..n] + Highlighter.Marker + statement[n..]
  {
    ErrorPrefixFacts();
    var prefix := Str("Error: ");
    var message := prefix + Highlighter.Phrase + [0x20] + DecimalString(n) + rest;
    assert prefix + reported == message;
    Highlighter.ShortPrefixNoMatch(message, prefix, n, rest);
    Highlighter.HighlightPositionMessage(message, prefix, n, rest, statement);
  }

  /** An `Error` rethrown by `new Error(err)` reads "Error: " and its message. */
  lemma RethrownErrorMessage(message: JsString)
    requires message != []
    ensures Rethrown(JsError(Str("Error"), message)).message == Str("Error: ") + message
  {
    assert Str("Error") + Str(": ") == Str("Error: ");
  }

  /** "Error: " is short, ends in a space and has no `x`. */
  lemma ErrorPrefixFacts()
    ensures |Str("Error: ")| == 7 && Str("Error: ")[6] == Space
    ensures Unit('x') !in Str("Error: ")
  {
    assert Str("Error: ") == [0x45, 0x72, 0x72, 0x6F, 0x72, 0x3A, 0x20];
  }

  /** The refusal's text has no `x`, so it cannot hold the position phrase. */
  lemma RefusalHasNoX()
    ensures Unit('x') !in Str("Statement provided is not a read query")
  {
    StrAvoids("Statement provided is not a read query", 'x');
  }
}
