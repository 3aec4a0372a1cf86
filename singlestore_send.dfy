/** The SingleStore `send` action: one batch of event payloads becomes one
    parameterised multi-row INSERT statement and a flat positional argument
    list, sent to the `/api/v2/exec` endpoint; the endpoint's JSON answer is
    then turned into a returned body or a raised `IntegrationError`.

    The HTTP exchange is the parameter `exec`, and the JavaScript Date
    round trip `new Date(timestamp).toISOString()` is the parameter `isoOf`. */
module SingleStoreSend {
  import opened Wrappers
  import opened Strings

  /** A JSON value, as the free-form `properties`, `traits` and `context`
      fields and the endpoint's response carry them. */
  datatype Json =
    | JNull
    | JBool(b: bool)
    | JNumber(n: int)
    | JString(s: string)
    | JArray(items: seq<Json>)
    | JObject(members: seq<(string, Json)>)

  /** A JSON object (a present, non-null value of an object-typed field). */
  datatype Object = Object(members: seq<(string, Json)>)

  /** One event of the batch. `None` stands for a field that is `null` or
      `undefined`; both are absent to the `??` operator. */
  datatype Payload = Payload(
    messageId: string,
    timestamp: string,
    eventType: string,
    event: Option<string>,
    name: Option<string>,
    properties: Option<Object>,
    userId: Option<string>,
    anonymousId: Option<string>,
    groupId: Option<string>,
    traits: Option<Object>,
    context: Option<Object>)

  /** One positional argument of the statement. */
  datatype Arg = Null | Text(text: string) | Doc(doc: Object)

  datatype Settings = Settings(
    host: string, port: string, username: string, password: string,
    dbName: string, tableName: string)

  /** The JSON body posted to `/api/v2/exec`. */
  datatype ExecRequest = ExecRequest(sql: string, database: string, args: seq<Arg>)

  /** The parsed JSON answer: `ok` may hold any JSON value (or be missing),
      `error` is the optional message, `rest` the remaining members. */
  datatype ExecResponse = ExecResponse(ok: Option<Json>, error: Option<string>, rest: Object)

  /** What the request client hands back: a transport status and the body. */
  datatype HttpResponse = HttpResponse(status: int, data: ExecResponse)

  datatype IntegrationError = IntegrationError(message: string, code: string, status: int)

  /** How `send` ends: it returns the response body or it throws. */
  datatype Outcome = Returned(body: ExecResponse) | Raised(error: IntegrationError)

  /** The fixed column order of the target table. */
  const Columns: seq<string> := [
    "messageId", "timestamp", "type", "event", "name", "properties",
    "userId", "anonymousId", "groupId", "traits", "context"
  ]

  const ColumnCount: nat := 11

  lemma ColumnsHaveFixedCount()
    ensures |Columns| == ColumnCount
  {
  }

  // ---------------------------------------------------------------------------
  // Timestamp

  /** `toISOString().replace('T', ' ').replace('Z', '')`, applied to the ISO
      text: the first `T` becomes a space, then the first `Z` is dropped. */
  function ToUtcDateTime(iso: string): string
  {
    RemoveFirst(ReplaceFirst(iso, 'T', ' '), 'Z')
  }

  /** For a timestamp `date + "T" + time + "Z" + rest` whose date part has
      neither letter and whose time part has no `Z` (the `toISOString` shape,
      with `rest` empty): the separator becomes a space, the first `Z` goes,
      and everything else is kept in place, so the text is one character
      shorter. */
  lemma ToUtcDateTimeShape(date: string, time: string, rest: string)
    requires 'T' !in date && 'Z' !in date && 'Z' !in time
    ensures ToUtcDateTime(date + "T" + time + "Z" + rest) == date + " " + time + rest
    ensures |ToUtcDateTime(date + "T" + time + "Z" + rest)| == |date + "T" + time + "Z" + rest| - 1
  {
    var tail := "T" + time + "Z" + rest;
    assert date + "T" + time + "Z" + rest == date + tail;
    ReplaceFirstSkip(date, tail, 'T', ' ');
    assert ReplaceFirst(tail, 'T', ' ') == " " + time + "Z" + rest;
    var kept := date + " " + time;
    assert date + (" " + time + "Z" + rest) == kept + ("Z" + rest);
    assert 'Z' !in kept;
    RemoveFirstSkip(kept, "Z" + rest, 'Z');
  }

  /** For any text: the result is one character shorter exactly when the
      text has a `Z`; reading it left to right gives the input's characters
      in order with the first `Z` skipped and the first `T` read as a space. */
  lemma ToUtcDateTimeEdits(iso: string)
    ensures var out := ToUtcDateTime(iso);
      && |out| == |iso| - (if 'Z' in iso then 1 else 0)
      && forall i :: 0 <= i < |out| ==>
           var j := if i < FirstIndex(iso, 'Z') then i else i + 1;
           out[i] == if j == FirstIndex(iso, 'T') then ' ' else iso[j]
  {
    var r := ReplaceFirst(iso, 'T', ' ');
    var z := FirstIndex(iso, 'Z');
    ReplaceFirstAt(iso, 'T', ' ');
    ReplaceFirstKeepsIndex(iso, 'T', ' ', 'Z');
    RemoveFirstSplits(r, 'Z');
    if z < |iso| {
      assert iso[z] == 'Z';
    } else {
      assert 'Z' !in iso;
    }
  }

  /** A timestamp without a `T` and without a `Z` passes through unchanged. */
  lemma ToUtcDateTimeIdentity(iso: string)
    requires 'T' !in iso && 'Z' !in iso
    ensures ToUtcDateTime(iso) == iso
  {
    ReplaceFirstSkip(iso, "", 'T', ' ');
    RemoveFirstSkip(iso, "", 'Z');
    assert iso + "" == iso;
  }

  lemma ToUtcDateTimeExample()
    ensures ToUtcDateTime("2024-01-15T10:30:00.000Z") == "2024-01-15 10:30:00.000"
  {
    ToUtcDateTimeShape("2024-01-15", "10:30:00.000", "");
    assert "2024-01-15" + "T" + "10:30:00.000" + "Z" + "" == "2024-01-15T10:30:00.000Z";
    assert "2024-01-15" + " " + "10:30:00.000" + "" == "2024-01-15 10:30:00.000";
  }

  // ---------------------------------------------------------------------------
  // Positional arguments

  /** `value ?? null` for a string-typed optional field. */
  function TextOrNull(field: Option<string>): Arg
  {
    match field
    case Some(v) => Text(v)
    case None => Null
  }

  /** `value ?? null` for an object-typed optional field. */
  function DocOrNull(field: Option<Object>): Arg
  {
    match field
    case Some(v) => Doc(v)
    case None => Null
  }

  /** The eleven values one payload contributes, in column order. */
  function Row(p: Payload, isoOf: string -> string): (r: seq<Arg>)
    ensures |r| == ColumnCount
  {
    [ Text(p.messageId),
      Text(ToUtcDateTime(isoOf(p.timestamp))),
      Text(p.eventType),
      TextOrNull(p.event),
      TextOrNull(p.name),
      DocOrNull(p.properties),
      TextOrNull(p.userId),
      TextOrNull(p.anonymousId),
      TextOrNull(p.groupId),
      DocOrNull(p.traits),
      DocOrNull(p.context) ]
  }

  /** The required columns are never `null`; every optional column is `null`
      exactly when its field is absent and otherwise carries the field's value
      unchanged. */
  lemma RowColumns(p: Payload, isoOf: string -> string)
    ensures var r := Row(p, isoOf);
      && r[0] == Text(p.messageId)
      && r[1] == Text(ToUtcDateTime(isoOf(p.timestamp)))
      && r[2] == Text(p.eventType)
      && (r[3] == Null <==> p.event == None) && (p.event.Some? ==> r[3] == Text(p.event.value))
      && (r[4] == Null <==> p.name == None) && (p.name.Some? ==> r[4] == Text(p.name.value))
      && (r[5] == Null <==> p.properties == None) && (p.properties.Some? ==> r[5] == Doc(p.properties.value))
      && (r[6] == Null <==> p.userId == None) && (p.userId.Some? ==> r[6] == Text(p.userId.value))
      && (r[7] == Null <==> p.anonymousId == None) && (p.anonymousId.Some? ==> r[7] == Text(p.anonymousId.value))
      && (r[8] == Null <==> p.groupId == None) && (p.groupId.Some? ==> r[8] == Text(p.groupId.value))
      && (r[9] == Null <==> p.traits == None) && (p.traits.Some? ==> r[9] == Doc(p.traits.value))
      && (r[10] == Null <==> p.context == None) && (p.context.Some? ==> r[10] == Doc(p.context.value))
  {
  }

  /** The argument list of a batch: the rows of its payloads, in order. */
  function ArgsOf(payloads: seq<Payload>, isoOf: string -> string): seq<Arg>
    decreases |payloads|
  {
    if payloads == [] then []
    else ArgsOf(payloads[..|payloads| - 1], isoOf) + Row(payloads[|payloads| - 1], isoOf)
  }

  /** Record-major, column-minor layout: position `11 * i + j` holds the value
      of column `j` of payload `i`, and there is nothing else. */
  lemma {:induction false} ArgsOfLayout(payloads: seq<Payload>, isoOf: string -> string)
    ensures |ArgsOf(payloads, isoOf)| == ColumnCount * |payloads|
    ensures forall i, j :: 0 <= i < |payloads| && 0 <= j < ColumnCount ==>
      ArgsOf(payloads, isoOf)[ColumnCount * i + j] == Row(payloads[i], isoOf)[j]
  {
    if payloads != [] {
      var n := |payloads| - 1;
      var init := payloads[..n];
      ArgsOfLayout(init, isoOf);
      forall i, j | 0 <= i < |payloads| && 0 <= j < ColumnCount
        ensures ArgsOf(payloads, isoOf)[ColumnCount * i + j] == Row(payloads[i], isoOf)[j]
      {
        if i < n {
          assert payloads[i] == init[i];
        }
      }
    }
  }

  /** The `for … of` loop that pushes eleven values per payload. */
  method BuildArgs(payloads: seq<Payload>, isoOf: string -> string) returns (args: seq<Arg>)
    ensures args == ArgsOf(payloads, isoOf)
    ensures |args| == ColumnCount * |payloads|
    ensures forall i, j :: 0 <= i < |payloads| && 0 <= j < ColumnCount ==>
      args[ColumnCount * i + j] == Row(payloads[i], isoOf)[j]
  {
    args := [];
    var k := 0;
    while k < |payloads|
      invariant 0 <= k <= |payloads|
      invariant args == ArgsOf(payloads[..k], isoOf)
    {
      var item := payloads[k];
      assert payloads[..k + 1][..k] == payloads[..k];
      args := args + [
        Text(item.messageId),
        Text(ToUtcDateTime(isoOf(item.timestamp))),
        Text(item.eventType),
        TextOrNull(item.event),
        TextOrNull(item.name),
        DocOrNull(item.properties),
        TextOrNull(item.userId),
        TextOrNull(item.anonymousId),
        TextOrNull(item.groupId),
        DocOrNull(item.traits),
        DocOrNull(item.context)
      ];
      k := k + 1;
    }
    assert payloads[..k] == payloads;
    ArgsOfLayout(payloads, isoOf);
  }

  // ---------------------------------------------------------------------------
  // SQL text

  /** `(` + one `?` per column joined by `, ` + `)`. */
  function PlaceholderGroup(columns: seq<string>): string
  {
    "(" + Join(Copies("?", |columns|), ", ") + ")"
  }

  /** One placeholder group per payload, joined by `, `. */
  function ValuesClause(columns: seq<string>, payloadCount: nat): string
  {
    Join(Copies(PlaceholderGroup(columns), payloadCount), ", ")
  }

  /** The statement text for a column list. The table name is spliced in
      verbatim between backticks; it is not a parameter. */
  function Statement(tableName: string, columns: seq<string>, payloadCount: nat): string
  {
    "INSERT INTO `" + tableName + "` (" + Join(columns, ", ") + ") VALUES " + ValuesClause(columns, payloadCount)
  }

  /** The statement `send` issues, over the fixed column list. */
  function InsertSql(tableName: string, payloadCount: nat): string
  {
    Statement(tableName, Columns, payloadCount)
  }

  /** The one-character pieces the clause is made of. */
  lemma PieceCounts()
    ensures Count("?", '?') == 1 && Count("?", '(') == 0
    ensures Count(", ", '?') == 0 && Count(", ", '(') == 0
    ensures Count("(", '?') == 0 && Count("(", '(') == 1
    ensures Count(")", '?') == 0 && Count(")", '(') == 0
    ensures Count("", '?') == 0 && Count("", '(') == 0
  {
  }

  /** A group holds one placeholder per column, one `(` at its start and one
      `)` at its end. */
  lemma PlaceholderGroupCounts(columns: seq<string>)
    ensures Count(PlaceholderGroup(columns), '?') == |columns|
    ensures Count(PlaceholderGroup(columns), '(') == 1
    ensures PlaceholderGroup(columns)[0] == '('
    ensures PlaceholderGroup(columns)[|PlaceholderGroup(columns)| - 1] == ')'
  {
    var inner := Join(Copies("?", |columns|), ", ");
    PieceCounts();
    CountJoinCopies("?", ", ", |columns|, '?');
    CountJoinCopies("?", ", ", |columns|, '(');
    assert PlaceholderGroup(columns) == "(" + inner + ")" + "";
    CountPieces("(", inner, ")", "", '?');
    CountPieces("(", inner, ")", "", '(');
  }

  /** The clause grows by one `, ` and one group per payload; an empty batch
      gives the empty clause. */
  lemma ValuesClauseGrowth(columns: seq<string>, n: nat)
    ensures ValuesClause(columns, 0) == ""
    ensures ValuesClause(columns, n + 1) ==
      if n == 0 then PlaceholderGroup(columns)
      else ValuesClause(columns, n) + ", " + PlaceholderGroup(columns)
  {
    JoinSnoc(Copies(PlaceholderGroup(columns), n), PlaceholderGroup(columns), ", ");
  }

  /** The clause has `n` groups, so one placeholder per column and payload. */
  lemma ValuesClauseCounts(columns: seq<string>, n: nat)
    ensures Count(ValuesClause(columns, n), '?') == n * |columns|
    ensures Count(ValuesClause(columns, n), '(') == n
  {
    PlaceholderGroupCounts(columns);
    CountJoinCopies(PlaceholderGroup(columns), ", ", n, '?');
    CountJoinCopies(PlaceholderGroup(columns), ", ", n, '(');
    PieceCounts();
  }

  /** The column list has no placeholder in it. */
  lemma ColumnNamesHaveNoPlaceholder()
    ensures forall i :: 0 <= i < |Columns| ==> '?' !in Columns[i]
  {
  }

  /** The fixed text between the table name and the VALUES clause has no
      placeholder when the column names have none. */
  lemma {:induction false} ColumnsTextPlaceholders(columns: seq<string>)
    requires forall i :: 0 <= i < |columns| ==> '?' !in columns[i]
    ensures Count("` (" + Join(columns, ", ") + ") VALUES ", '?') == 0
  {
    var cols := Join(columns, ", ");
    JoinAbsent(columns, ", ", '?');
    assert '?' !in "` (" + cols + ") VALUES ";
    CountZero("` (" + cols + ") VALUES ", '?');
  }

  lemma StatementPieces(tableName: string, columns: seq<string>, n: nat)
    ensures Statement(tableName, columns, n) ==
      "INSERT INTO `" + tableName + ("` (" + Join(columns, ", ") + ") VALUES ") + ValuesClause(columns, n)
  {
  }

  lemma KeywordsHaveNoPlaceholder()
    ensures Count("INSERT INTO `", '?') == 0
  {
    CountZero("INSERT INTO `", '?');
  }

  /** When neither the table name nor any column name holds a `?`, the
      statement has one placeholder per column and payload. */
  lemma {:induction false} StatementPlaceholders(tableName: string, columns: seq<string>, n: nat)
    requires '?' !in tableName
    requires forall i :: 0 <= i < |columns| ==> '?' !in columns[i]
    ensures Count(Statement(tableName, columns, n), '?') == n * |columns|
  {
    var middle := "` (" + Join(columns, ", ") + ") VALUES ";
    var values := ValuesClause(columns, n);
    StatementPieces(tableName, columns, n);
    CountPieces("INSERT INTO `", tableName, middle, values, '?');
    ColumnsTextPlaceholders(columns);
    CountZero(tableName, '?');
    KeywordsHaveNoPlaceholder();
    ValuesClauseCounts(columns, n);
  }

  /** As long as the table name holds no `?`, the statement has exactly one
      placeholder per positional argument. */
  lemma PlaceholdersMatchArgs(tableName: string, payloads: seq<Payload>, isoOf: string -> string)
    requires '?' !in tableName
    ensures Count(InsertSql(tableName, |payloads|), '?') == |ArgsOf(payloads, isoOf)|
  {
    ColumnNamesHaveNoPlaceholder();
    StatementPlaceholders(tableName, Columns, |payloads|);
    ColumnsHaveFixedCount();
    ArgsOfLayout(payloads, isoOf);
  }

  /** Reads the table name back out of a statement: the text between the
      opening ``INSERT INTO ` `` and the next backtick. */
  function TableNameOf(sql: string): Option<string>
  {
    var prefix := "INSERT INTO `";
    if |sql| < |prefix| || sql[..|prefix|] != prefix then None
    else
      var rest := sql[|prefix|..];
      var k := FirstIndex(rest, '`');
      if k == |rest| then None else Some(rest[..k])
  }

  /** The statement text after the table name and its closing backtick. */
  function AfterTableName(columns: seq<string>, payloadCount: nat): string
  {
    " (" + Join(columns, ", ") + ") VALUES " + ValuesClause(columns, payloadCount)
  }

  lemma StatementSplit(tableName: string, columns: seq<string>, n: nat)
    ensures Statement(tableName, columns, n) ==
      "INSERT INTO `" + (tableName + "`" + AfterTableName(columns, n))
  {
  }

  /** What follows the opening backtick up to the next one is read back. */
  lemma {:induction false} TableNameOfReadsUpToBacktick(name: string, tail: string)
    requires '`' !in name
    ensures TableNameOf("INSERT INTO `" + (name + "`" + tail)) == Some(name)
  {
    var prefix, rest := "INSERT INTO `", name + "`" + tail;
    var sql := prefix + rest;
    assert sql[..|prefix|] == prefix;
    assert sql[|prefix|..] == rest;
    assert rest == name + ("`" + tail);
    FirstIndexSkip(name, "`" + tail, '`');
    assert rest[..|name|] == name;
  }

  /** A table name free of backticks is read back exactly; this is the
      trust boundary the verbatim splice relies on. */
  lemma TableNameRoundTrip(tableName: string, n: nat)
    requires '`' !in tableName
    ensures TableNameOf(InsertSql(tableName, n)) == Some(tableName)
  {
    StatementSplit(tableName, Columns, n);
    TableNameOfReadsUpToBacktick(tableName, AfterTableName(Columns, n));
  }

  /** A backtick in the table name closes the identifier early: the name
      ``a`b`` is read back as `a`. Callers must validate the identifier. */
  lemma TableNameWithBacktickIsCut(n: nat)
    ensures TableNameOf(InsertSql("a`b", n)) == Some("a")
  {
    var tail := AfterTableName(Columns, n);
    StatementSplit("a`b", Columns, n);
    BacktickNameSplit(tail);
    TableNameOfReadsUpToBacktick("a", "b`" + tail);
  }

  lemma BacktickNameSplit(tail: string)
    ensures "a`b" + "`" + tail == "a" + "`" + ("b`" + tail)
  {
    assert "a`b" + "`" == "a" + "`" + "b`";
  }

  // ---------------------------------------------------------------------------
  // Response

  /** `error || 'Unknown error'`: a missing or empty message is replaced. */
  function ErrorText(error: Option<string>): string
  {
    if error.Some? && error.value != "" then error.value else "Unknown error"
  }

  /** The check after the exec call: a body whose `ok` is the boolean `false`
      becomes a 400 `Bad Request` error; any other body is returned as is. */
  function Decide(body: ExecResponse): (r: Outcome)
    ensures r.Raised? <==> body.ok == Some(JBool(false))
    ensures r.Returned? ==> r.body == body
    ensures r.Raised? ==>
      && r.error.status == 400
      && r.error.code == "Bad Request"
      && r.error.message == "Failed to insert data: " + ErrorText(body.error)
  {
    if body.ok == Some(JBool(false)) then
      Raised(IntegrationError("Failed to insert data: " + ErrorText(body.error), "Bad Request", 400))
    else
      Returned(body)
  }

  /** The raised message always carries the remote message when there is
      a non-empty one, after the fixed prefix; a non-boolean `ok` (the string
      "false", `null`, `0`) never raises. */
  lemma DecideMessage(body: ExecResponse)
    ensures var r := Decide(body);
      r.Raised? ==>
        && |r.error.message| > 23
        && r.error.message[..23] == "Failed to insert data: "
        && (body.error.Some? && body.error.value != "" ==> r.error.message[23..] == body.error.value)
        && (body.error.None? || body.error == Some("") ==> r.error.message[23..] == "Unknown error")
    ensures body.ok.Some? && !body.ok.value.JBool? ==> Decide(body) == Returned(body)
  {
    var r := Decide(body);
    if r.Raised? {
      var prefix := "Failed to insert data: ";
      assert |prefix| == 23;
      assert r.error.message[..23] == prefix;
      assert r.error.message[23..] == ErrorText(body.error);
    }
  }

  lemma DecideExample()
    ensures Decide(ExecResponse(Some(JBool(false)), Some("table not found"), Object([]))) ==
      Raised(IntegrationError("Failed to insert data: table not found", "Bad Request", 400))
  {
  }

  // ---------------------------------------------------------------------------
  // The action

  /** `send`: build the statement and the arguments, hand them to the
      executor, and decide the outcome from the response body alone (the
      transport status plays no part). */
  method Send(
    payloads: seq<Payload>, settings: Settings,
    isoOf: string -> string, exec: ExecRequest -> HttpResponse)
    returns (request: ExecRequest, outcome: Outcome)
    ensures request.sql == InsertSql(settings.tableName, |payloads|)
    ensures request.database == settings.dbName
    ensures request.args == ArgsOf(payloads, isoOf)
    ensures outcome == Decide(exec(request).data)
  {
    var sql := InsertSql(settings.tableName, |payloads|);
    var args := BuildArgs(payloads, isoOf);
    request := ExecRequest(sql, settings.dbName, args);
    var response := exec(request);
    outcome := Decide(response.data);
  }
}
