/** The statement builders of mysql-wrap.js: `prepareWhereEquals` turns a
    column/value object into a WHERE fragment and its flat value list, and `select`
    and `selectOne` build `SELECT * FROM ??` statements from a table name and such
    an object, then run them through `query` and `one`. */
module Builders {
  import opened Wrappers
  import opened JsText
  import opened Driver
  import opened MysqlWrap

  /** A `whereEquals` object: its column/value pairs in the object's iteration order. */
  type WhereEquals = seq<(string, Value)>

  const Term := "?? = ?"
  const And := " AND "
  const Where := " WHERE "
  const SelectHead := "SELECT * FROM "
  const SelectFrom := SelectHead + "?? "

  /** The characters a WHERE fragment is made of. */
  const WhereAlphabet: set<char> := {' ', 'W', 'H', 'E', 'R', 'A', 'N', 'D', '?', '='}

  // ---------------------------------------------------------------------------
  // What prepareWhereEquals computes

  /** The values of a WHERE fragment: each key, then its value, pair after pair. */
  function WhereValues(whereEquals: WhereEquals): (r: seq<Value>)
    ensures |r| == 2 * |whereEquals|
  {
    if whereEquals == [] then []
    else [Str(whereEquals[0].0), whereEquals[0].1] + WhereValues(whereEquals[1..])
  }

  /** Key `i` sits at index `2i` and its value at `2i + 1`. */
  lemma {:induction false} WhereValuesAt(whereEquals: WhereEquals, i: nat)
    requires i < |whereEquals|
    ensures WhereValues(whereEquals)[2 * i] == Str(whereEquals[i].0)
    ensures WhereValues(whereEquals)[2 * i + 1] == whereEquals[i].1
  {
    if i > 0 {
      WhereValuesAt(whereEquals[1..], i - 1);
    }
  }

  /** The SQL of a WHERE fragment over `n` pairs: empty for none, otherwise ` WHERE `
      and `n` terms `?? = ?` joined by ` AND `. */
  function WhereSql(n: nat): (r: string)
    ensures r == "" <==> n == 0
    ensures Placeholders(r) == 2 * n
    ensures OnlyChars(r, WhereAlphabet)
    ensures r == "" || r[|r| - 1] == '?'
  {
    if n == 0 then ""
    else
      var joined := Join(Repeat(Term, n), And);
      JoinedTermsShape(n);
      JoinedTermsChars(n);
      JoinedTermsPlaceholders(n);
      WhereChars();
      NoPlaceholders(Where);
      PlaceholdersAppend(Where, joined);
      OnlyCharsAppend(Where, joined, WhereAlphabet);
      Where + joined
  }

  lemma WhereChars()
    ensures forall k :: 0 <= k < |Where| ==> Where[k] in WhereAlphabet && Where[k] != '?'
    ensures forall k :: 0 <= k < |And| ==> And[k] in WhereAlphabet && And[k] != '?'
    ensures forall k :: 0 <= k < |Term| ==> Term[k] in WhereAlphabet
  {
  }

  lemma TermPlaceholders()
    ensures Placeholders(Term) == 2
  {
    assert Term == "??" + " = " + "?";
    assert Placeholders("?") == 1;
    assert Placeholders("??") == 1 by {
      assert "??"[2..] == "";
    }
    assert Placeholders(" = ") == 0 by {
      assert forall k :: 0 <= k < |" = "| ==> " = "[k] != '?';
      NoPlaceholders(" = ");
    }
    PlaceholdersAppend("??", " = ");
    PlaceholdersAppend("??" + " = ", "?");
  }

  /** One more term: the join of `n + 1` terms is a term, ` AND ` and the join of `n`. */
  lemma JoinStep(n: nat)
    requires n > 0
    ensures Join(Repeat(Term, n + 1), And) == Term + And + Join(Repeat(Term, n), And)
  {
    assert Repeat(Term, n + 1)[1..] == Repeat(Term, n);
  }

  /** Joined terms are never empty and start and end with `?`. */
  lemma {:induction false} JoinedTermsShape(n: nat)
    requires n > 0
    ensures var j := Join(Repeat(Term, n), And);
      |j| > 0 && j[0] == '?' && j[|j| - 1] == '?'
  {
    if n > 1 {
      JoinedTermsShape(n - 1);
      JoinStep(n - 1);
    }
  }

  /** Joined terms are made of WHERE-fragment characters only. */
  lemma {:induction false} JoinedTermsChars(n: nat)
    ensures OnlyChars(Join(Repeat(Term, n), And), WhereAlphabet)
  {
    WhereChars();
    if n > 1 {
      JoinedTermsChars(n - 1);
      JoinStep(n - 1);
      OnlyCharsAppend(Term, And, WhereAlphabet);
      OnlyCharsAppend(Term + And, Join(Repeat(Term, n - 1), And), WhereAlphabet);
    } else if n == 1 {
      assert Join(Repeat(Term, 1), And) == Term;
    }
  }

  /** Joined terms hold two placeholders per term. */
  lemma {:induction false} JoinedTermsPlaceholders(n: nat)
    requires n > 0
    ensures Placeholders(Join(Repeat(Term, n), And)) == 2 * n
  {
    TermPlaceholders();
    if n > 1 {
      var rest := Join(Repeat(Term, n - 1), And);
      JoinedTermsPlaceholders(n - 1);
      JoinedTermsShape(n - 1);
      JoinStep(n - 1);
      WhereChars();
      NoPlaceholders(And);
      PlaceholdersAppend(Term, And);
      PlaceholdersAppend(Term + And, rest);
    } else {
      assert Join(Repeat(Term, 1), And) == Term;
    }
  }

  // ---------------------------------------------------------------------------
  // prepareWhereEquals

  /** The `{values, sql}` object prepareWhereEquals returns. */
  datatype WhereFragment = WhereFragment(values: seq<Value>, sql: string)

  /** Maps over the pairs, pushing the key and then the value onto `values` and
      emitting one `?? = ?` term per pair; joins the terms with ` AND ` and puts
      ` WHERE ` in front unless the result is empty. */
  method PrepareWhereEquals(whereEquals: WhereEquals) returns (where: WhereFragment)
    ensures |where.values| == 2 * |whereEquals|
    ensures forall i :: 0 <= i < |whereEquals| ==>
              where.values[2 * i] == Str(whereEquals[i].0) && where.values[2 * i + 1] == whereEquals[i].1
    ensures where.values == WhereValues(whereEquals)
    ensures where.sql == WhereSql(|whereEquals|)
    ensures where.sql == "" <==> whereEquals == []
  {
    var values: seq<Value> := [];
    var terms: seq<string> := [];
    var i := 0;
    while i < |whereEquals|
      invariant 0 <= i <= |whereEquals|
      invariant |values| == 2 * i
      invariant forall k :: 0 <= k < i ==>
                  values[2 * k] == Str(whereEquals[k].0) && values[2 * k + 1] == whereEquals[k].1
      invariant terms == Repeat(Term, i)
    {
      var (key, val) := whereEquals[i];
      values := values + [Str(key)];
      values := values + [val];
      terms := terms + [Term];
      i := i + 1;
    }
    forall k | 0 <= k < |values|
      ensures values[k] == WhereValues(whereEquals)[k]
    {
      WhereValuesAt(whereEquals, k / 2);
    }
    var sql := Join(terms, And);
    if |whereEquals| > 0 {
      JoinedTermsShape(|whereEquals|);
    }
    where := WhereFragment(values, if sql != "" then Where + sql else sql);
  }

  // ---------------------------------------------------------------------------
  // select and selectOne

  /** The statement select builds for `n` pairs: `SELECT * FROM ?? ` and the WHERE
      fragment, one placeholder for the table and two per pair. */
  function SelectStatement(n: nat): (s: string)
    ensures Placeholders(s) == 1 + 2 * n
  {
    SelectFromPlaceholders();
    PlaceholdersAppend(SelectFrom, WhereSql(n));
    SelectFrom + WhereSql(n)
  }

  /** The characters of `SELECT * FROM ?? `: upper-case, on one line, no `I`, and
      no `F` but that of `FROM`. */
  lemma SelectFromChars()
    ensures forall k :: 0 <= k < |SelectFrom| ==>
      SelectFrom[k] != 'I' && !IsLineTerminator(SelectFrom[k]) && !('a' <= SelectFrom[k] <= 'z')
      && (k >= 10 ==> SelectFrom[k] != 'F')
    ensures SelectFrom[14..] == "?? " && SelectFrom[8..14] == FromSep && SelectFrom[..6] == "SELECT"
  {
  }

  lemma SelectFromPlaceholders()
    ensures Placeholders(SelectFrom) == 1
  {
    TablePlaceholder();
    SelectHeadPlaceholders();
    SelectHeadChars();
    PlaceholdersAppend(SelectHead, "?? ");
  }

  lemma TablePlaceholder()
    ensures Placeholders("?? ") == 1
  {
    assert "?? "[2..] == " ";
    SpacePlaceholders();
  }

  lemma SpacePlaceholders()
    ensures Placeholders(" ") == 0
  {
  }

  lemma SelectHeadPlaceholders()
    ensures Placeholders(SelectHead) == 0
  {
    SelectHeadChars();
    NoPlaceholders(SelectHead);
  }

  lemma SelectFromTable()
    ensures |SelectHead| == 14 && SelectFrom[14..] == "?? "
  {
  }

  lemma SelectHeadChars()
    ensures forall k :: 0 <= k < |SelectHead| ==> SelectHead[k] != '?'
    ensures SelectHead[|SelectHead| - 1] == ' '
  {
  }

  /** Every character of the statement select builds is upper-case and on one line,
      none of them is an `I` (so no `LIMIT` can occur), and the only `F` is that of
      ` FROM `. */
  lemma {:induction false} SelectStatementChars(n: nat)
    ensures var s := SelectStatement(n);
      forall m :: 0 <= m < |s| ==>
        s[m] != 'I' && !IsLineTerminator(s[m]) && !('a' <= s[m] <= 'z') && (m >= 10 ==> s[m] != 'F')
  {
    var w := WhereSql(n);
    var s := SelectFrom + w;
    forall m | 0 <= m < |s|
      ensures s[m] != 'I' && !IsLineTerminator(s[m]) && !('a' <= s[m] <= 'z')
      ensures m >= 10 ==> s[m] != 'F'
    {
      if m >= |SelectFrom| {
        assert s[m] == w[m - |SelectFrom|];
        assert s[m] in WhereAlphabet;
      } else {
        SelectFromChars();
        assert s[m] == SelectFrom[m];
      }
    }
  }

  /** The statement select builds is a SELECT. */
  lemma SelectStatementIsSelect(s: string)
    requires |s| >= |SelectFrom| && s[..|SelectFrom|] == SelectFrom
    ensures QueryType(s) == "SELECT"
  {
    SelectFromChars();
    assert s[..6] == SelectFrom[..6] == "SELECT";
    assert Upper("SELECT") == "SELECT";
    SelectWordIsSelect(s);
  }

  /** The statement select builds is upper-case already, holds one placeholder for
      the table and two per pair, sits on one line and has no LIMIT. */
  lemma {:induction false} SelectStatementFacts(n: nat)
    ensures QueryType(SelectStatement(n)) == "SELECT"
    ensures Upper(SelectStatement(n)) == SelectStatement(n)
    ensures Placeholders(SelectStatement(n)) == 1 + 2 * n
    ensures SingleLine(SelectStatement(n))
    ensures !Contains(Upper(SelectStatement(n)), LimitSep)
    ensures !Contains(Upper(SelectStatement(n)), "LIMIT")
  {
    SelectStatementUpper(n);
    SelectStatementIsSelect(SelectStatement(n));
    SelectStatementChars(n);
    NoLetterI(SelectStatement(n));
  }

  lemma SelectStatementUpper(n: nat)
    ensures Upper(SelectStatement(n)) == SelectStatement(n)
    ensures SingleLine(SelectStatement(n))
  {
    SelectStatementChars(n);
    UpperOfUpper(SelectStatement(n));
  }

  /** A text without an `I` holds no LIMIT. */
  lemma NoLetterI(s: string)
    requires forall m :: 0 <= m < |s| ==> s[m] != 'I'
    ensures !Contains(s, LimitSep) && !Contains(s, "LIMIT")
  {
    NoMatchFrom(s, LimitSep, 2, 0);
    NoMatchFrom(s, "LIMIT", 1, 0);
  }

  /** select(table, whereEquals, callback): queries `SELECT * FROM ?? ` and the WHERE
      fragment with the table name followed by the fragment's values. */
  method Select(table: string, whereEquals: WhereEquals, callback: Arg, outcome: Outcome)
    returns (c: Completion<Response>)
    ensures c.issued.sql == SelectStatement(|whereEquals|)
    ensures c.issued.values == [Str(table)] + WhereValues(whereEquals)
    ensures Placeholders(c.issued.sql) == |c.issued.values| == 1 + 2 * |whereEquals|
    ensures c.delivery.callback == (if callback.FunctionArg? then callback.fn else NoOp)
    ensures c.delivery.err == outcome.err
    ensures c.delivery.result == SelectResponse(outcome.res, CountRequest(c.issued.sql, c.issued.values))
    ensures SettlesAlike(c)
  {
    var where := PrepareWhereEquals(whereEquals);
    var values := [Str(table)] + where.values;
    SelectStatementFacts(|whereEquals|);
    c := Query(SelectFrom + where.sql, ArrayArg(values), callback, outcome);
  }

  /** ` LIMIT 1` holds no placeholder. */
  lemma LimitClausePlaceholders()
    ensures Placeholders(LimitClause) == 0
    ensures LimitClause[0] == ' '
  {
    forall k | 0 <= k < |LimitClause|
      ensures LimitClause[k] != '?'
    {
    }
    NoPlaceholders(LimitClause);
  }

  /** What `one` sends for the statement select builds: that statement with
      ` LIMIT 1`, still a SELECT, still one placeholder per value. */
  lemma SelectOneStatementFacts(n: nat)
    ensures LimitedStatement(SelectStatement(n)) == SelectStatement(n) + LimitClause
    ensures QueryType(SelectStatement(n) + LimitClause) == "SELECT"
    ensures Placeholders(SelectStatement(n) + LimitClause) == 1 + 2 * n
  {
    SelectStatementFacts(n);
    SelectOneIsSelect(n);
    SelectOnePlaceholders(n);
  }

  lemma SelectOneIsSelect(n: nat)
    ensures QueryType(SelectStatement(n) + LimitClause) == "SELECT"
  {
    var s := SelectStatement(n);
    PrefixOfAppend(SelectFrom, WhereSql(n), |SelectFrom|);
    PrefixOfAppend(s, LimitClause, |SelectFrom|);
    SelectStatementIsSelect(s + LimitClause);
  }

  lemma SelectOnePlaceholders(n: nat)
    ensures Placeholders(SelectStatement(n) + LimitClause) == 1 + 2 * n
  {
    LimitClausePlaceholders();
    PlaceholdersAppend(SelectStatement(n), LimitClause);
  }

  /** selectOne(table, whereEquals, callback): the same statement through `one`, which
      sends it with ` LIMIT 1` and answers with the first row. */
  method SelectOne(table: string, whereEquals: WhereEquals, callback: Arg, outcome: Outcome)
    returns (c: Completion<OneResponse>)
    ensures c.issued.sql == SelectStatement(|whereEquals|) + LimitClause
    ensures c.issued.values == [Str(table)] + WhereValues(whereEquals)
    ensures Placeholders(c.issued.sql) == |c.issued.values| == 1 + 2 * |whereEquals|
    ensures c.delivery.callback == (if callback.FunctionArg? then callback.fn else NoOp)
    ensures c.delivery.err == outcome.err
    ensures c.delivery.result ==
              FirstOrNull(SelectResponse(outcome.res, CountRequest(c.issued.sql, c.issued.values)))
    ensures SettlesAlike(c)
  {
    var where := PrepareWhereEquals(whereEquals);
    var values := [Str(table)] + where.values;
    SelectOneStatementFacts(|whereEquals|);
    c := One(SelectFrom + where.sql, ArrayArg(values), callback, outcome);
  }

  // ---------------------------------------------------------------------------
  // What count() sends after select and selectOne

  /** The only ` FROM ` of the select statement is that of `SELECT * FROM`. */
  lemma {:induction false} SelectStatementFrom(n: nat)
    ensures MatchesAt(SelectStatement(n), FromSep, 8)
    ensures forall j :: 8 < j ==> !MatchesAt(SelectStatement(n), FromSep, j)
  {
    SelectStatementFromAt(n);
    SelectStatementChars(n);
    NoMatchFrom(SelectStatement(n), FromSep, 1, 9);
  }

  lemma SelectStatementFromAt(n: nat)
    ensures MatchesAt(SelectStatement(n), FromSep, 8)
  {
    var s := SelectStatement(n);
    SelectFromChars();
    assert s[8..14] == SelectFrom[8..14];
  }

  /** The cuts of the count query in the select statement: right after the ` FROM `
      of `SELECT * FROM`, and at the end, there being no LIMIT. */
  lemma {:induction false} SelectCountBounds(n: nat)
    ensures SingleLine(SelectStatement(n))
    ensures CountBounds(SelectStatement(n)) == (14, |SelectStatement(n)|)
  {
    var s := SelectStatement(n);
    SelectStatementFacts(n);
    SelectStatementFrom(n);
    var u := Upper(s);
    assert u == s;
    var (a, b) := CountBounds(s);
    assert Contains(u, FromSep) by {
      assert MatchesAt(u, FromSep, 8);
    }
    assert a != 0;
    assert a - |FromSep| >= 8 by {
      assert MatchesAt(u, FromSep, 8);
    }
    assert a - |FromSep| == 8 by {
      assert MatchesAt(u, FromSep, a - |FromSep|);
    }
    assert b == |s| by {
      assert !Contains(u, LimitSep);
    }
  }

  /** The predicate of the select statement is ` ?? ` and the WHERE fragment. */
  lemma SelectCountPredicate(n: nat)
    ensures SingleLine(SelectStatement(n))
    ensures CountPredicate(SelectStatement(n)) == "?? " + WhereSql(n)
  {
    var s := SelectStatement(n);
    SelectCountBounds(n);
    SelectFromTable();
    SuffixOfAppend(SelectFrom, WhereSql(n), 14);
    assert s[14..|s|] == s[14..];
    CountPredicateIsSlice(s);
  }

  /** The count query of the select statement keeps ` ?? ` and the WHERE fragment. */
  lemma SelectCountSql(n: nat)
    ensures SingleLine(SelectStatement(n))
    ensures CountSql(SelectStatement(n)) == CountPrefix + "?? " + WhereSql(n)
    ensures Placeholders(CountSql(SelectStatement(n))) == 1 + 2 * n
  {
    SelectCountPredicate(n);
    assert CountPrefix + ("?? " + WhereSql(n)) == CountPrefix + "?? " + WhereSql(n);
    SelectCountPlaceholders(n);
  }

  lemma SelectCountPlaceholders(n: nat)
    ensures Placeholders(CountPrefix + "?? " + WhereSql(n)) == 1 + 2 * n
  {
    var kept := "?? " + WhereSql(n);
    assert CountPrefix + kept == CountPrefix + "?? " + WhereSql(n);
    CountPrefixPlaceholders();
    WhereSqlAfterTable(n);
    PlaceholdersAppend(CountPrefix, kept);
  }

  /** ` ?? ` followed by the WHERE fragment holds one placeholder more than the fragment. */
  lemma WhereSqlAfterTable(n: nat)
    ensures Placeholders("?? " + WhereSql(n)) == 1 + 2 * n
  {
    TablePlaceholder();
    PlaceholdersAppend("?? ", WhereSql(n));
  }

  /** As written, `count()` after `select(table, whereEquals)` sends a statement with
      `1 + 2n` placeholders and no values at all. */
  lemma SelectCountAsWritten(table: string, whereEquals: WhereEquals)
    ensures SingleLine(SelectStatement(|whereEquals|))
    ensures var q := CountQueryAsWritten(CountRequest(SelectStatement(|whereEquals|),
                                                      [Str(table)] + WhereValues(whereEquals)));
      Placeholders(q.sql) == 1 + 2 * |whereEquals| && q.values == []
  {
    SelectCountSql(|whereEquals|);
  }

  /** The corrected `count()` after `select(table, whereEquals)` sends the same values
      as the select: the table name and each pair. */
  lemma SelectCountSendsValues(table: string, whereEquals: WhereEquals)
    ensures SingleLine(SelectStatement(|whereEquals|))
    ensures var values := [Str(table)] + WhereValues(whereEquals);
      CountQuery(CountRequest(SelectStatement(|whereEquals|), values))
        == Request(CountPrefix + "?? " + WhereSql(|whereEquals|), values)
  {
    var n := |whereEquals|;
    SelectCountSql(n);
    SelectStatementFacts(n);
    CountQuerySendsAll(SelectStatement(n), [Str(table)] + WhereValues(whereEquals));
  }

  /** The count query after selectOne is that after select: the appended ` LIMIT 1`
      is cut off again. */
  lemma {:induction false} SelectOneCountSql(n: nat)
    ensures SingleLine(SelectStatement(n) + LimitClause)
    ensures SingleLine(SelectStatement(n))
    ensures CountSql(SelectStatement(n) + LimitClause) == CountSql(SelectStatement(n))
  {
    var s := SelectStatement(n);
    SelectStatementFacts(n);
    assert s[|s| - 1] == ' ' || s[|s| - 1] == '?';
    assert " FROM"[4] == 'M';
    assert " LIMIT"[5] == 'T';
    CountIgnoresAppendedLimit(s);
  }

  /** As written, `count()` after selectOne sends no values; corrected, it sends those
      of the statement. */
  lemma SelectOneCountValues(table: string, whereEquals: WhereEquals)
    ensures SingleLine(SelectStatement(|whereEquals|) + LimitClause)
    ensures var statement := SelectStatement(|whereEquals|) + LimitClause;
      var values := [Str(table)] + WhereValues(whereEquals);
      CountQueryAsWritten(CountRequest(statement, values)).values == []
      && Placeholders(CountQueryAsWritten(CountRequest(statement, values)).sql) == |values|
      && CountQuery(CountRequest(statement, values)) == Request(CountPrefix + "?? " + WhereSql(|whereEquals|), values)
  {
    var n := |whereEquals|;
    SelectOneCountSql(n);
    SelectCountSql(n);
    SelectOneStatementFacts(n);
    CountQuerySendsAll(SelectStatement(n) + LimitClause, [Str(table)] + WhereValues(whereEquals));
  }
}
