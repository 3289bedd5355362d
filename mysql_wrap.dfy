/** The query layer of mysql-wrap.js: statement classification, argument
    disambiguation, response wrapping, the dual callback/promise completion, `one`,
    and the row-count accessor attached to SELECT results. The driver's answer to
    each request is an input (`Outcome`); every operation returns what it hands the
    driver, what its callback receives and how its promise settles. */
module MysqlWrap {
  import opened Wrappers
  import opened JsText
  import opened Driver

  // ---------------------------------------------------------------------------
  // Optional arguments (getValueFromParams / getCallBackFromParams)

  /** A function a caller can pass: one of its own callbacks, the continuation that
      `one` hands to `query`, or the no-op put in place of a missing callback. */
  datatype Fn = Caller(id: nat) | OneRespond | NoOp

  /** An argument as `_.isArray` / `_.isFunction` see it. */
  datatype Arg = ArrayArg(items: seq<Value>) | FunctionArg(fn: Fn) | Scalar(value: Value)

  /** An argument the caller left out. */
  const Absent: Arg := Scalar(Undefined)

  function ValuesFromParams(valuesOrCallback: Arg, callbackOrNothing: Arg): seq<Value> {
    if valuesOrCallback.ArrayArg? then valuesOrCallback.items else []
  }

  function CallbackFromParams(valuesOrCallback: Arg, callbackOrNothing: Arg): Fn {
    if valuesOrCallback.FunctionArg? then valuesOrCallback.fn
    else if callbackOrNothing.FunctionArg? then callbackOrNothing.fn
    else NoOp
  }

  /** The arguments of the four call forms `f(s)`, `f(s, values)`, `f(s, callback)`
      and `f(s, values, callback)`. */
  function CallForm(values: Option<seq<Value>>, callback: Option<Fn>): (Arg, Arg) {
    match (values, callback)
    case (None, None) => (Absent, Absent)
    case (Some(v), None) => (ArrayArg(v), Absent)
    case (None, Some(f)) => (FunctionArg(f), Absent)
    case (Some(v), Some(f)) => (ArrayArg(v), FunctionArg(f))
  }

  /** Disambiguation recovers what each call form meant: the values or `[]`, and the
      callback or a no-op. */
  lemma ParamsRoundTrip(values: Option<seq<Value>>, callback: Option<Fn>)
    ensures ValuesFromParams(CallForm(values, callback).0, CallForm(values, callback).1)
            == (if values.Some? then values.value else [])
    ensures CallbackFromParams(CallForm(values, callback).0, CallForm(values, callback).1)
            == (if callback.Some? then callback.value else NoOp)
  {
  }

  /** getValueFromParams: the values are the second argument when it is an array, and
      `[]` otherwise, whatever the third argument is. */
  lemma ValuesDisambiguation(valuesOrCallback: Arg, callbackOrNothing: Arg, other: Arg)
    ensures ValuesFromParams(valuesOrCallback, callbackOrNothing) == ValuesFromParams(valuesOrCallback, other)
    ensures valuesOrCallback.ArrayArg? ==> ValuesFromParams(valuesOrCallback, callbackOrNothing) == valuesOrCallback.items
    ensures !valuesOrCallback.ArrayArg? ==> ValuesFromParams(valuesOrCallback, callbackOrNothing) == []
  {
  }

  /** getCallBackFromParams: a function second argument is the callback whatever
      follows; otherwise a function third argument is; otherwise the no-op. */
  lemma CallbackDisambiguation(valuesOrCallback: Arg, callbackOrNothing: Arg, other: Arg)
    ensures valuesOrCallback.FunctionArg? ==>
              CallbackFromParams(valuesOrCallback, callbackOrNothing) == valuesOrCallback.fn
              && CallbackFromParams(valuesOrCallback, other) == valuesOrCallback.fn
    ensures !valuesOrCallback.FunctionArg? && callbackOrNothing.FunctionArg? ==>
              CallbackFromParams(valuesOrCallback, callbackOrNothing) == callbackOrNothing.fn
    ensures !valuesOrCallback.FunctionArg? && !callbackOrNothing.FunctionArg? ==>
              CallbackFromParams(valuesOrCallback, callbackOrNothing) == NoOp
  {
  }

  // ---------------------------------------------------------------------------
  // Statement classification (getQueryType)

  /** getQueryType: the first space-separated word of the trimmed statement, upper-cased.
      It is `SELECT` exactly when the trimmed statement starts with the word `select`
      in any case, followed by a space or by nothing. */
  function QueryType(statement: string): (r: string)
    ensures r == "SELECT" <==>
      (|Trim(statement)| >= 6 && Upper(Trim(statement)[..6]) == "SELECT"
       && (|Trim(statement)| == 6 || Trim(statement)[6] == ' '))
  {
    PieceIsSelect(Trim(statement));
    Upper(FirstPiece(Trim(statement)))
  }

  lemma QueryTypeOfUpper(s: string)
    ensures QueryType(Upper(s)) == QueryType(s)
  {
    UpperTrimStart(s);
    UpperTrimEnd(TrimStart(s));
    UpperFirstPiece(Trim(s));
    UpperIdempotent(FirstPiece(Trim(s)));
  }

  /** Classification is case-insensitive: statements that upper-case alike are of the same kind. */
  lemma {:induction false} QueryTypeCaseInsensitive(s: string, t: string)
    requires Upper(s) == Upper(t)
    ensures QueryType(s) == QueryType(t)
  {
    QueryTypeOfUpper(s);
    QueryTypeOfUpper(t);
  }

  /** The first piece of a text upper-cases to `SELECT` exactly when the text starts
      with `select` in any case, followed by a space or by nothing. */
  lemma PieceIsSelect(t: string)
    ensures Upper(FirstPiece(t)) == "SELECT" <==>
      (|t| >= 6 && Upper(t[..6]) == "SELECT" && (|t| == 6 || t[6] == ' '))
  {
    if Upper(FirstPiece(t)) == "SELECT" {
      SelectPiece(t);
    }
    if |t| >= 6 && Upper(t[..6]) == "SELECT" && (|t| == 6 || t[6] == ' ') {
      SelectWordPiece(t);
    }
  }

  /** A text that starts with a word upper-casing to `SELECT` has that word as its
      first piece. */
  lemma SelectWordPiece(t: string)
    requires |t| >= 6 && Upper(t[..6]) == "SELECT" && (|t| == 6 || t[6] == ' ')
    ensures FirstPiece(t) == t[..6]
  {
    SelectHasNoSpace(t);
    FirstPieceIs(t, 6);
  }

  /** A first piece that upper-cases to `SELECT` is the first six characters, followed
      by a space or by nothing. */
  lemma SelectPiece(t: string)
    requires Upper(FirstPiece(t)) == "SELECT"
    ensures |t| >= 6 && FirstPiece(t) == t[..6] && (|t| == 6 || t[6] == ' ')
  {
    var p := FirstPiece(t);
    assert |p| == |Upper(p)| == 6;
  }

  /** A word that upper-cases to `SELECT` holds no space. */
  lemma SelectHasNoSpace(t: string)
    requires |t| >= 6 && Upper(t[..6]) == "SELECT"
    ensures forall k :: 0 <= k < 6 ==> t[k] != ' '
  {
    SelectLetters();
    forall k | 0 <= k < 6
      ensures t[k] != ' '
    {
      assert Upper(t[..6])[k] == UpperChar(t[k]);
      UpperCharSpace(t[k]);
    }
  }

  lemma SelectLetters()
    ensures forall k :: 0 <= k < 6 ==> "SELECT"[k] != ' '
  {
  }

  /** A statement that starts with `select` and a space is a SELECT. */
  lemma {:induction false} SelectWordIsSelect(s: string)
    requires |s| >= 7 && Upper(s[..6]) == "SELECT" && s[6] == ' '
    ensures QueryType(s) == "SELECT"
  {
    assert Upper(s[..6])[0] == 'S' && Upper(s[..6])[5] == 'T';
    UpperCharTrimmable(s[0]);
    UpperCharTrimmable(s[5]);
    assert TrimStart(s) == s;
    var t := Trim(s);
    assert |t| > 5;
    assert t[..6] == s[..6];
  }

  /** The example of the test suite: mixed case still classifies as SELECT. */
  lemma MixedCaseSelect()
    ensures QueryType("sElEcT id FRoM `table` Where id = ?") == "SELECT"
  {
    var s := "sElEcT id FRoM `table` Where id = ?";
    assert s[..6] == "sElEcT";
    assert Upper("sElEcT") == "SELECT";
    SelectWordIsSelect(s);
  }

  // ---------------------------------------------------------------------------
  // Completion: the callback and the promise (promiseRespond)

  datatype Promise<T> = Rejected(reason: DriverError) | Resolved(value: T)

  /** What a callback is called with: which callback, the error and the result. */
  datatype Delivery<T> = Delivery(callback: Fn, err: Option<DriverError>, result: T)

  /** One finished operation: the request it gave the driver, its callback call and
      the settlement of the promise it returned. */
  datatype Completion<T> = Completion(issued: Request, delivery: Delivery<T>, promise: Promise<T>)

  /** Rejects with the error when there is one, and resolves with the result otherwise. */
  function PromiseRespond<T>(err: Option<DriverError>, res: T): (p: Promise<T>)
    ensures p.Rejected? <==> err.Some?
    ensures p.Rejected? ==> p.reason == err.value
    ensures p.Resolved? ==> p.value == res
  {
    if err.Some? then Rejected(err.value) else Resolved(res)
  }

  /** The promise settles with the same error and result the callback was given. */
  predicate SettlesAlike<T(==)>(c: Completion<T>) {
    match c.promise
    case Rejected(e) => c.delivery.err == Some(e)
    case Resolved(r) => c.delivery.err.None? && c.delivery.result == r
  }

  // ---------------------------------------------------------------------------
  // query and wrapResponse

  /** The statement and values a SELECT result's `count()` is bound to. */
  datatype CountRequest = CountRequest(statement: string, values: seq<Value>)

  /** A wrapped response: `{results, count}` for a SELECT, the driver's result itself otherwise. */
  datatype Response =
    | SelectResponse(results: DriverResult, count: CountRequest)
    | Raw(raw: DriverResult)

  /** wrapResponse: SELECT results get the `{results, count}` shape, INSERT, UPDATE,
      DELETE and every other kind pass the driver's result through. */
  method WrapResponse(statement: string, values: seq<Value>, res: DriverResult) returns (wrapped: Response)
    ensures wrapped.SelectResponse? <==> QueryType(statement) == "SELECT"
    ensures wrapped.SelectResponse? ==>
              wrapped.results == res && wrapped.count == CountRequest(statement, values)
    ensures wrapped.Raw? ==> wrapped.raw == res
  {
    var kind := QueryType(statement);
    if kind == "SELECT" {
      wrapped := SelectResponse(res, CountRequest(statement, values));
    } else if kind == "INSERT" {
      wrapped := Raw(res);
    } else if kind == "UPDATE" {
      wrapped := Raw(res);
    } else if kind == "DELETE" {
      wrapped := Raw(res);
    } else {
      wrapped := Raw(res);
    }
  }

  /** query(statement, [values], [callback]): hands `statement` and the values to the
      driver, then gives the callback and the promise each its own wrapping of the
      driver's answer. */
  method Query(statement: string, valuesOrCallback: Arg, callbackOrNothing: Arg, outcome: Outcome)
    returns (c: Completion<Response>)
    ensures c.issued == Request(statement, ValuesFromParams(valuesOrCallback, callbackOrNothing))
    ensures c.delivery.callback == CallbackFromParams(valuesOrCallback, callbackOrNothing)
    ensures c.delivery.err == outcome.err
    ensures QueryType(statement) == "SELECT" ==>
              c.delivery.result == SelectResponse(outcome.res, CountRequest(statement, c.issued.values))
    ensures QueryType(statement) != "SELECT" ==> c.delivery.result == Raw(outcome.res)
    ensures SettlesAlike(c)
  {
    var values := ValuesFromParams(valuesOrCallback, callbackOrNothing);
    var callback := CallbackFromParams(valuesOrCallback, callbackOrNothing);
    var issued := Request(statement, values);
    var forCallback := WrapResponse(statement, values, outcome.res);
    var forPromise := WrapResponse(statement, values, outcome.res);
    c := Completion(issued, Delivery(callback, outcome.err, forCallback), PromiseRespond(outcome.err, forPromise));
  }

  // ---------------------------------------------------------------------------
  // The row-count query (getRowCountForSelectQuery and its `predicate`)

  const FromSep := " FROM "
  const LimitSep := " LIMIT "
  const CountPrefix := "SELECT COUNT(*) FROM "

  // Where the two replacements cut the statement: the FROM pattern (any text, then
  // ` FROM `, case-insensitive) removes `statement[..a]`, through the end of the last
  // ` FROM ` (nothing when there is none); the LIMIT pattern (` LIMIT ` and any text)
  // then removes `statement[b..]`, from the first ` LIMIT ` after that cut. On one
  // line the wildcard matches every character, so the greedy prefix reaches the last
  // occurrence.
  function CountBounds(statement: string): (ab: (nat, nat))
    requires SingleLine(statement)
    ensures ab.0 <= ab.1 <= |statement|
    ensures ab.0 == 0 ==> !Contains(Upper(statement), FromSep)
    ensures ab.0 != 0 ==> ab.0 >= |FromSep| && MatchesAt(Upper(statement), FromSep, ab.0 - |FromSep|)
    ensures forall j :: ab.0 - |FromSep| < j ==> !MatchesAt(Upper(statement), FromSep, j)
    ensures ab.1 < |statement| ==> MatchesAt(Upper(statement), LimitSep, ab.1)
    ensures forall j :: ab.0 <= j < ab.1 ==> !MatchesAt(Upper(statement), LimitSep, j)
  {
    var upper := Upper(statement);
    var a := FromCut(upper);
    LimitCutAfter(upper, a);
    (a, a + LimitCut(upper[a..]))
  }

  /** The first ` LIMIT ` in what follows `a`, as a position in the whole text. */
  lemma LimitCutAfter(upper: string, a: nat)
    requires a <= |upper|
    ensures a + LimitCut(upper[a..]) <= |upper|
    ensures a + LimitCut(upper[a..]) < |upper| ==> MatchesAt(upper, LimitSep, a + LimitCut(upper[a..]))
    ensures forall j :: a <= j < a + LimitCut(upper[a..]) ==> !MatchesAt(upper, LimitSep, j)
  {
    var q := LimitCut(upper[a..]);
    forall j | a <= j < a + q
      ensures !MatchesAt(upper, LimitSep, j)
    {
      MatchInSuffix(upper, LimitSep, a, j - a);
    }
    MatchInSuffix(upper, LimitSep, a, q);
  }

  /** The end of the last ` FROM ` in an upper-cased text, or 0 when there is none. */
  function FromCut(upper: string): (a: nat)
    ensures a <= |upper|
    ensures a == 0 ==> !Contains(upper, FromSep)
    ensures a != 0 ==> a >= |FromSep| && MatchesAt(upper, FromSep, a - |FromSep|)
    ensures forall j :: a - |FromSep| < j ==> !MatchesAt(upper, FromSep, j)
  {
    var last := LastMatch(upper, FromSep);
    if last.Some? then last.value + |FromSep|
    else 0
  }

  /** The start of the first ` LIMIT ` in an upper-cased text, or its length when there is none. */
  function LimitCut(upper: string): (b: nat)
    ensures b <= |upper|
    ensures b < |upper| ==> MatchesAt(upper, LimitSep, b)
    ensures forall j :: 0 <= j < b ==> !MatchesAt(upper, LimitSep, j)
  {
    var first := FirstMatch(upper, LimitSep);
    if first.Some? then first.value else |upper|
  }

  /** The `predicate`: what is left of the statement once both cuts are made. It holds
      no ` FROM ` and no ` LIMIT `, in any case. */
  function CountPredicate(statement: string): (r: string)
    requires SingleLine(statement)
    ensures !Contains(Upper(r), FromSep)
    ensures !Contains(Upper(r), LimitSep)
  {
    var (a, b) := CountBounds(statement);
    UpperSlice(statement, a, b);
    var r := statement[a..b];
    MatchesInSlice(Upper(statement), FromSep, a, b);
    MatchesInSlice(Upper(statement), LimitSep, a, b);
    r
  }

  /** The SQL `count()` sends: `SELECT COUNT(*) FROM` and the predicate. */
  function CountSql(statement: string): string
    requires SingleLine(statement)
  {
    CountPrefix + CountPredicate(statement)
  }

  /** The request `count()` hands the driver, as written: only the SQL, so the values
      the statement was bound to are not sent. */
  function CountQueryAsWritten(req: CountRequest): (r: Request)
    requires SingleLine(req.statement)
    ensures r.sql == CountQuery(req).sql
    ensures r.values == []
    ensures Placeholders(r.sql) == |r.values| <==> Placeholders(r.sql) == 0
  {
    Request(CountSql(req.statement), [])
  }

  /** The values that belong to the placeholders that survive both cuts: those after
      the placeholders of the removed prefix, as many as the predicate holds. */
  function CountValues(statement: string, values: seq<Value>): seq<Value>
    requires SingleLine(statement)
  {
    var (a, b) := CountBounds(statement);
    var lo := Placeholders(statement[..a]);
    var hi := lo + Placeholders(statement[a..b]);
    if hi <= |values| then values[lo..hi] else []
  }

  /** The request `count()` is evidently meant to send: the count SQL with the values
      of its placeholders. When the statement's placeholders matched its values, so do
      those of the count query. */
  function CountQuery(req: CountRequest): (r: Request)
    requires SingleLine(req.statement)
    ensures r.sql == CountSql(req.statement)
    ensures Placeholders(req.statement) == |req.values| ==> Placeholders(r.sql) == |r.values|
    ensures Placeholders(req.statement) == |req.values| ==>
      var (a, b) := CountBounds(req.statement);
      Placeholders(req.statement[..a]) <= |req.values| - Placeholders(req.statement[b..])
      && r.values == req.values[Placeholders(req.statement[..a])..|req.values| - Placeholders(req.statement[b..])]
  {
    if Placeholders(req.statement) == |req.values| then
      CountQueryAligned(req.statement, req.values);
      CountValuesDropsCuts(req.statement, req.values);
      Request(CountSql(req.statement), CountValues(req.statement, req.values))
    else
      Request(CountSql(req.statement), CountValues(req.statement, req.values))
  }

  /** The predicate is the statement between the two cuts. */
  lemma CountPredicateIsSlice(statement: string)
    requires SingleLine(statement)
    ensures CountPredicate(statement) == statement[CountBounds(statement).0..CountBounds(statement).1]
  {
  }

  /** The values of the corrected count are those between the placeholders before
      the first cut and the placeholders of the predicate, when there are enough. */
  lemma CountValuesIsSlice(statement: string, values: seq<Value>)
    requires SingleLine(statement)
    ensures var (a, b) := CountBounds(statement);
      var lo := Placeholders(statement[..a]);
      var hi := lo + Placeholders(statement[a..b]);
      hi <= |values| ==> CountValues(statement, values) == values[lo..hi]
  {
  }

  /** With one value per placeholder, the corrected count drops exactly the values of
      the placeholders in the removed prefix and in the removed suffix. */
  lemma CountValuesDropsCuts(statement: string, values: seq<Value>)
    requires SingleLine(statement)
    requires Placeholders(statement) == |values|
    ensures var (a, b) := CountBounds(statement);
      Placeholders(statement[..a]) <= |values| - Placeholders(statement[b..])
      && CountValues(statement, values)
           == values[Placeholders(statement[..a])..|values| - Placeholders(statement[b..])]
  {
    var (a, b) := CountBounds(statement);
    CutSeams(statement);
    PlaceholdersSplit(statement, a, b);
    CountValuesIsSlice(statement, values);
  }

  lemma CountQueryAligned(statement: string, values: seq<Value>)
    requires SingleLine(statement)
    requires Placeholders(statement) == |values|
    ensures Placeholders(CountSql(statement)) == |CountValues(statement, values)|
  {
    CountSqlPlaceholders(statement);
    CountValuesLength(statement, values);
  }

  /** The count SQL holds the placeholders of the predicate. */
  lemma CountSqlPlaceholders(statement: string)
    requires SingleLine(statement)
    ensures Placeholders(CountSql(statement))
              == Placeholders(statement[CountBounds(statement).0..CountBounds(statement).1])
  {
    var (a, b) := CountBounds(statement);
    CountPredicateIsSlice(statement);
    CountPrefixPlaceholders();
    PlaceholdersAppend(CountPrefix, statement[a..b]);
  }

  /** With one value per placeholder, the corrected count has one value per placeholder
      of the predicate. */
  lemma CountValuesLength(statement: string, values: seq<Value>)
    requires SingleLine(statement)
    requires Placeholders(statement) == |values|
    ensures |CountValues(statement, values)|
              == Placeholders(statement[CountBounds(statement).0..CountBounds(statement).1])
  {
    var (a, b) := CountBounds(statement);
    CutSeams(statement);
    PlaceholdersSplit(statement, a, b);
    CountValuesIsSlice(statement, values);
  }

  lemma CountPrefixChars()
    ensures forall k :: 0 <= k < |CountPrefix| ==> CountPrefix[k] != '?'
  {
  }

  lemma CountPrefixPlaceholders()
    ensures Placeholders(CountPrefix) == 0
    ensures CountPrefix[|CountPrefix| - 1] == ' '
  {
    CountPrefixChars();
    NoPlaceholders(CountPrefix);
  }

  /** Both cuts fall next to a space: the removed prefix ends with the space of
      ` FROM `, the removed suffix starts with the space of ` LIMIT `. */
  lemma CutSeams(statement: string)
    requires SingleLine(statement)
    ensures CountBounds(statement).0 == 0 || statement[CountBounds(statement).0 - 1] == ' '
    ensures CountBounds(statement).1 == |statement| || statement[CountBounds(statement).1] == ' '
  {
    var (a, b) := CountBounds(statement);
    var upper := Upper(statement);
    SeparatorChars();
    if a != 0 {
      MatchedChar(upper, FromSep, a - |FromSep|, |FromSep| - 1);
      UpperCharSpace(statement[a - 1]);
    }
    if b < |statement| {
      MatchedChar(upper, LimitSep, b, 0);
      UpperCharSpace(statement[b]);
    }
  }

  /** When the count query keeps every placeholder of the statement, the corrected
      count sends every value the statement was bound to, in order. */
  lemma CountQuerySendsAll(statement: string, values: seq<Value>)
    requires SingleLine(statement)
    requires Placeholders(statement) == |values| == Placeholders(CountSql(statement))
    ensures CountQuery(CountRequest(statement, values)).values == values
  {
    CountQueryAligned(statement, values);
  }

  /** What `count()` reports, to its callback and its promise alike: `null` with the
      driver's error, or the `COUNT(*)` field of the first row. A successful answer
      without a first row makes `res[0]['COUNT(*)']` throw inside the driver's
      completion, so neither channel is ever settled. */
  datatype CountSettlement = Settled(err: Option<DriverError>, rowCount: Value) | Throws

  function RowCount(outcome: Outcome): (r: CountSettlement)
    ensures r.Throws? <==> outcome.err.None? && !(outcome.res.Rows? && outcome.res.rows != [])
    ensures r.Settled? ==> r.err == outcome.err
    ensures r.Settled? && r.err.Some? ==> r.rowCount == Null
    ensures r.Settled? && r.err.None? ==> r.rowCount == Field(outcome.res.rows[0], "COUNT(*)")
  {
    if outcome.err.Some? then Settled(outcome.err, Null)
    else if outcome.res.Rows? && outcome.res.rows != [] then
      Settled(None, Field(outcome.res.rows[0], "COUNT(*)"))
    else Throws
  }

  /** A one-row answer `{COUNT(*): n}` is reported as `n`. */
  lemma RowCountOfCountRow(n: int, others: Row)
    ensures RowCount(Outcome(None, Rows([[("COUNT(*)", Num(n))] + others]))) == Settled(None, Num(n))
  {
  }

  /** The first cut follows the last ` FROM `, not the one after `SELECT …`: with a
      subquery in the predicate, the count keeps only what follows the subquery's
      ` FROM `. */
  lemma SubqueryCountKeepsTail()
    ensures CountSql(SubqueryStatement) == "SELECT COUNT(*) FROM U)"
  {
    SubqueryCountBounds();
    CountPredicateIsSlice(SubqueryStatement);
    assert SubqueryStatement[42..44] == "U)";
  }

  const SubqueryStatement := "SELECT A FROM T WHERE X IN (SELECT Y FROM U)"

  /** In the subquery statement the first cut falls after the second ` FROM `. */
  lemma SubqueryCountBounds()
    ensures SingleLine(SubqueryStatement)
    ensures CountBounds(SubqueryStatement) == (42, 44)
  {
    var s := SubqueryStatement;
    assert forall i :: 0 <= i < |s| ==> ' ' <= s[i] <= 'Z';
    UpperOfUpper(s);
    assert Upper(s) == s;
    assert s[36..42] == FromSep;
    assert MatchesAt(Upper(s), FromSep, 36);
    NoMatchFrom(s, FromSep, 1, 37);
  }

  /** Appending ` LIMIT 1` to a statement without ` LIMIT ` leaves its count query
      unchanged: the count ignores the limit. The statement may not end in ` LIMIT` or
      ` FROM`, where the appended text would complete the separator. */
  lemma CountIgnoresAppendedLimit(s: string)
    requires SingleLine(s)
    requires !Contains(Upper(s), LimitSep)
    requires !(|s| >= 6 && Upper(s)[|s| - 6..] == " LIMIT")
    requires !(|s| >= 5 && Upper(s)[|s| - 5..] == " FROM")
    ensures SingleLine(s + LimitClause)
    ensures CountSql(s + LimitClause) == CountSql(s)
  {
    var t := s + LimitClause;
    AppendedLimitFromCut(s);
    AppendedLimitLimitCut(s);
    CountPredicateIsSlice(s);
    CountPredicateIsSlice(t);
    var a := CountBounds(s).0;
    assert t[a..|s|] == s[a..|s|];
  }

  /** Upper-casing the statement with ` LIMIT 1` appended appends ` LIMIT 1`. */
  lemma UpperAppendedLimit(s: string)
    ensures Upper(s + LimitClause) == Upper(s) + LimitClause
  {
    UpperAppend(s, LimitClause);
    UpperOfUpper(LimitClause);
  }

  /** The first cut does not move when ` LIMIT 1` is appended. */
  lemma AppendedLimitFromCut(s: string)
    requires SingleLine(s)
    requires !(|s| >= 5 && Upper(s)[|s| - 5..] == " FROM")
    ensures SingleLine(s + LimitClause)
    ensures CountBounds(s + LimitClause).0 == CountBounds(s).0
  {
    var u := Upper(s);
    UpperAppendedLimit(s);
    AppendedClauseAddsNoFrom(u);
    SameMatchesSameLast(u + LimitClause, u, FromSep);
    assert FromCut(u + LimitClause) == FromCut(u);
  }

  /** Without a ` LIMIT ` of its own, the statement is cut at its end, and with ` LIMIT 1`
      appended it is cut where the clause starts. */
  lemma AppendedLimitLimitCut(s: string)
    requires SingleLine(s)
    requires !Contains(Upper(s), LimitSep)
    requires !(|s| >= 6 && Upper(s)[|s| - 6..] == " LIMIT")
    requires !(|s| >= 5 && Upper(s)[|s| - 5..] == " FROM")
    ensures SingleLine(s + LimitClause)
    ensures CountBounds(s).1 == |s|
    ensures CountBounds(s + LimitClause).1 == |s|
  {
    var u := Upper(s);
    UpperAppendedLimit(s);
    AppendedLimitFromCut(s);
    AppendedClauseIsFirstLimit(u);
  }

  /** Appending ` LIMIT 1` to an upper-cased text creates no new ` FROM `, unless the
      text ends with ` FROM`. */
  lemma AppendedClauseAddsNoFrom(u: string)
    requires !(|u| >= 5 && u[|u| - 5..] == " FROM")
    ensures forall j :: MatchesAt(u + LimitClause, FromSep, j) <==> MatchesAt(u, FromSep, j)
  {
    var ut := u + LimitClause;
    SeparatorChars();
    forall j | 0 <= j && j + |FromSep| <= |u|
      ensures MatchesAt(ut, FromSep, j) <==> MatchesAt(u, FromSep, j)
    {
      assert ut[j..j + |FromSep|] == u[j..j + |FromSep|];
    }
    forall j | 0 <= j && |u| < j + |FromSep| <= |ut|
      ensures !MatchesAt(ut, FromSep, j)
    {
      var w := ut[j..j + |FromSep|];
      if j == |u| - 5 {
        assert w[..5] == u[|u| - 5..];
      } else if j < |u| {
        assert w[|u| - j] == ut[|u|] == LimitClause[0];
      } else {
        assert w[1] == ut[j + 1] == LimitClause[j + 1 - |u|];
      }
    }
  }

  /** In a text without ` LIMIT ` that does not end with ` LIMIT`, the first
      ` LIMIT ` after appending ` LIMIT 1` is the appended one. */
  lemma AppendedClauseIsFirstLimit(u: string)
    requires !Contains(u, LimitSep)
    requires !(|u| >= 6 && u[|u| - 6..] == " LIMIT")
    ensures MatchesAt(u + LimitClause, LimitSep, |u|)
    ensures forall j :: j < |u| ==> !MatchesAt(u + LimitClause, LimitSep, j)
  {
    var ut := u + LimitClause;
    SeparatorChars();
    assert ut[|u|..|u| + |LimitSep|] == LimitClause[..7];
    forall j | 0 <= j < |u|
      ensures !MatchesAt(ut, LimitSep, j)
    {
      var w := ut[j..j + |LimitSep|];
      if j + |LimitSep| <= |u| {
        assert w == u[j..j + |LimitSep|];
        assert !MatchesAt(u, LimitSep, j);
      } else if j + |LimitSep| <= |ut| {
        if j == |u| - 6 {
          assert w[..6] == u[|u| - 6..];
        } else {
          assert w[|u| - j] == ut[|u|] == LimitClause[0];
        }
      }
    }
  }

  // ---------------------------------------------------------------------------
  // one and selectOne's reduction

  const LimitClause := " LIMIT 1"

  /** The characters of the separators and of the appended clause that the proofs
      about them look at. */
  lemma SeparatorChars()
    ensures FromSep[0] == ' ' && FromSep[1] == 'F' && FromSep[5] == ' ' && FromSep[..5] == " FROM"
    ensures forall k :: 1 <= k < 5 ==> FromSep[k] != ' '
    ensures LimitSep[0] == ' ' && LimitSep[6] == ' ' && LimitSep[1..6] == "LIMIT"
    ensures forall k :: 1 <= k < 6 ==> LimitSep[k] != ' '
    ensures LimitClause[0] == ' ' && LimitClause[..7] == LimitSep
    ensures forall k :: 0 <= k < |LimitClause| ==> LimitClause[k] != 'F'
  {
  }

  /** What `Function.prototype.toString` yields for the built-in `toUpperCase`. */
  const ToUpperCaseText := "function toUpperCase() { [native code] }"

  /** The statement `one` sends, as written: `/ LIMIT /` is tested against the text of
      the `toUpperCase` method rather than the upper-cased statement. The guard never
      fires, so ` LIMIT 1` is always appended. */
  function LimitedStatementAsWritten(statement: string): (r: string)
    ensures r == statement + LimitClause
  {
    NoMatchFrom(ToUpperCaseText, LimitSep, 1, 0);
    if Contains(ToUpperCaseText, LimitSep) then statement else statement + LimitClause
  }

  /** So a statement that already has a LIMIT clause is sent with two. */
  lemma AsWrittenDoublesLimit(statement: string, p: nat)
    requires MatchesAt(Upper(statement), LimitSep, p)
    ensures MatchesAt(Upper(LimitedStatementAsWritten(statement)), LimitSep, p)
    ensures MatchesAt(Upper(LimitedStatementAsWritten(statement)), LimitSep, |statement|)
    ensures LimitedStatementAsWritten(statement) != statement
  {
    UpperAppend(statement, LimitClause);
    UpperOfUpper(LimitClause);
    var u := Upper(statement + LimitClause);
    assert u[p..p + |LimitSep|] == Upper(statement)[p..p + |LimitSep|];
    assert u[|statement|..|statement| + |LimitSep|] == LimitSep;
  }

  /** The statement `one` evidently means to send: `LIMIT 1` is appended unless the
      upper-cased statement already holds ` LIMIT `. The result always has a limit. */
  function LimitedStatement(statement: string): (r: string)
    ensures Contains(Upper(r), LimitSep)
    ensures Contains(Upper(statement), LimitSep) ==> r == statement
    ensures !Contains(Upper(statement), LimitSep) ==> r == statement + LimitClause
  {
    if Contains(Upper(statement), LimitSep) then statement
    else
      UpperAppend(statement, LimitClause);
      UpperOfUpper(LimitClause);
      assert Upper(statement + LimitClause)[|statement|..|statement| + |LimitSep|] == LimitSep;
      assert MatchesAt(Upper(statement + LimitClause), LimitSep, |statement|);
      statement + LimitClause
  }

  /** Limiting twice is limiting once. */
  lemma LimitedStatementIdempotent(statement: string)
    ensures LimitedStatement(LimitedStatement(statement)) == LimitedStatement(statement)
  {
  }

  /** For a statement without a LIMIT both versions send the same text. */
  lemma LimitVersionsAgree(statement: string)
    requires !Contains(Upper(statement), LimitSep)
    ensures LimitedStatement(statement) == LimitedStatementAsWritten(statement)
  {
  }

  /** `one`'s answer: the wrapped SELECT response with `results` replaced by its first
      row (or `null`), keeping `count`; `undefined` when there is no `results`. */
  datatype OneResponse = NoResponse | OneRow(row: Option<Row>, count: CountRequest)

  function FirstOrNull(res: Response): (r: OneResponse)
    ensures r.OneRow? <==> res.SelectResponse? && !res.results.NoResult?
    ensures r.OneRow? ==> r.count == res.count
    ensures r.OneRow? ==> (r.row.Some? <==> res.results.Rows? && res.results.rows != [])
    ensures r.OneRow? && r.row.Some? ==> r.row.value == res.results.rows[0]
  {
    match res
    case SelectResponse(Rows(rows), count) => OneRow(if rows == [] then None else Some(rows[0]), count)
    // an OK packet is an object, so `res.results` is truthy, but `packet[0]` is undefined
    case SelectResponse(Packet(_, _, _), count) => OneRow(None, count)
    case SelectResponse(NoResult, _) => NoResponse
    // neither a row array nor a packet has a `results` property
    case Raw(_) => NoResponse
  }

  /** The part of `one` after the guard: queries `limited` with `values` and gives the
      callback and the promise the first row of the answer. */
  method QueryFirstRow(limited: string, values: seq<Value>, callback: Fn, outcome: Outcome)
    returns (c: Completion<OneResponse>)
    ensures c.issued == Request(limited, values)
    ensures c.delivery.callback == callback
    ensures c.delivery.err == outcome.err
    ensures QueryType(limited) == "SELECT" ==>
              c.delivery.result == FirstOrNull(SelectResponse(outcome.res, CountRequest(limited, values)))
    ensures QueryType(limited) != "SELECT" ==> c.delivery.result == NoResponse
    ensures SettlesAlike(c)
  {
    var inner := Query(limited, ArrayArg(values), FunctionArg(OneRespond), outcome);
    var results := FirstOrNull(inner.delivery.result);
    c := Completion(inner.issued, Delivery(callback, inner.delivery.err, results),
                    PromiseRespond(inner.delivery.err, results));
  }

  /** one(statement, [values], [callback]), as written: queries the statement with
      ` LIMIT 1` appended, whether or not it already has a LIMIT, and gives the callback
      and the promise the first row of the answer. */
  method One(statement: string, valuesOrCallback: Arg, callbackOrNothing: Arg, outcome: Outcome)
    returns (c: Completion<OneResponse>)
    ensures c.issued == Request(statement + LimitClause, ValuesFromParams(valuesOrCallback, callbackOrNothing))
    ensures c.delivery.callback == CallbackFromParams(valuesOrCallback, callbackOrNothing)
    ensures c.delivery.err == outcome.err
    ensures QueryType(c.issued.sql) == "SELECT" ==>
              c.delivery.result == FirstOrNull(SelectResponse(outcome.res, CountRequest(c.issued.sql, c.issued.values)))
    ensures QueryType(c.issued.sql) != "SELECT" ==> c.delivery.result == NoResponse
    ensures SettlesAlike(c)
  {
    var values := ValuesFromParams(valuesOrCallback, callbackOrNothing);
    var callback := CallbackFromParams(valuesOrCallback, callbackOrNothing);
    var limited := LimitedStatementAsWritten(statement);
    c := QueryFirstRow(limited, values, callback, outcome);
  }

  /** `one` with the corrected guard: a statement that already has a LIMIT is sent as
      it is. */
  method OneCorrected(statement: string, valuesOrCallback: Arg, callbackOrNothing: Arg, outcome: Outcome)
    returns (c: Completion<OneResponse>)
    ensures c.issued == Request(LimitedStatement(statement), ValuesFromParams(valuesOrCallback, callbackOrNothing))
    ensures Contains(Upper(c.issued.sql), LimitSep)
    ensures c.delivery.callback == CallbackFromParams(valuesOrCallback, callbackOrNothing)
    ensures c.delivery.err == outcome.err
    ensures QueryType(c.issued.sql) == "SELECT" ==>
              c.delivery.result == FirstOrNull(SelectResponse(outcome.res, CountRequest(c.issued.sql, c.issued.values)))
    ensures QueryType(c.issued.sql) != "SELECT" ==> c.delivery.result == NoResponse
    ensures SettlesAlike(c)
  {
    var values := ValuesFromParams(valuesOrCallback, callbackOrNothing);
    var callback := CallbackFromParams(valuesOrCallback, callbackOrNothing);
    var limited := LimitedStatement(statement);
    c := QueryFirstRow(limited, values, callback, outcome);
  }
}
