/**
 The partial-update helper `sqlForPartialUpdate` (helpers/sql.js): given the
 new data of a row, as an ordered object, and a map from JavaScript field
 names to SQL column names, it builds the text of a `SET` clause with one
 `"<column>"=$<n>` assignment per key, and the values those placeholders bind.
 */
module Sql {
  import opened Wrappers
  import opened JsValues
  import opened Text
  import opened Errors

  /** The `jsToSql` argument: JavaScript field names to SQL column names. */
  type Aliases = map<string, string>

  /** `jsToSql[key] || key`: the alias when there is a non-empty one,
      otherwise the key itself. */
  function ColumnName(key: string, jsToSql: Aliases): string {
    if key in jsToSql && jsToSql[key] != "" then jsToSql[key] else key
  }

  /** One `"<column>"=$<placeholder>` item of a `SET` clause. */
  datatype Assignment = Assignment(column: string, placeholder: nat)

  function RenderAssignment(a: Assignment): string {
    "\"" + a.column + "\"=$" + NatToString(a.placeholder)
  }

  /** The rendered assignments joined by `", "`; `RenderSetClauseIsJoin`
      shows this is `cols.join(", ")`. */
  function RenderSetClause(assignments: seq<Assignment>): string
    decreases |assignments|
  {
    if |assignments| == 0 then ""
    else if |assignments| == 1 then RenderAssignment(assignments[0])
    else RenderAssignment(assignments[0]) + ", " + RenderSetClause(assignments[1..])
  }

  lemma {:induction false} RenderSetClauseIsJoin(assignments: seq<Assignment>)
    ensures RenderSetClause(assignments)
         == Join(seq(|assignments|, i requires 0 <= i < |assignments| => RenderAssignment(assignments[i])), ", ")
    decreases |assignments|
  {
    if |assignments| > 1 {
      var tail := assignments[1..];
      var parts := seq(|assignments|, i requires 0 <= i < |assignments| => RenderAssignment(assignments[i]));
      assert parts[1..] == seq(|tail|, i requires 0 <= i < |tail| => RenderAssignment(tail[i]));
      RenderSetClauseIsJoin(tail);
    }
  }

  /** Reads one assignment at the front of `s`; the column runs up to the next
      double quote. */
  function ParseAssignment(s: string): (r: Option<(Assignment, string)>)
    ensures r.Some? ==> |r.value.1| < |s|
  {
    if |s| == 0 || s[0] != '"' then None
    else
      var k := CharsBefore(s[1..], '"');
      if k + 1 == |s| then None
      else
        var rest := s[k + 2..];
        if !StartsWith(rest, "=$") then None
        else
          match ParseNat(rest[2..])
          case None => None
          case Some((n, tail)) => Some((Assignment(s[1..k + 1], n), tail))
  }

  function ParseAssignmentList(s: string): Option<seq<Assignment>>
    decreases |s|
  {
    match ParseAssignment(s)
    case None => None
    case Some((a, rest)) =>
      if rest == "" then Some([a])
      else if StartsWith(rest, ", ") then
        match ParseAssignmentList(rest[2..])
        case None => None
        case Some(more) => Some([a] + more)
      else None
  }

  /** Reads a whole `SET` clause back into its assignments. */
  function ParseSetClause(s: string): Option<seq<Assignment>> {
    if s == "" then Some([]) else ParseAssignmentList(s)
  }

  /** A column is safe to quote when it holds no double quote. */
  predicate Quotable(column: string) {
    '"' !in column
  }

  /** A quoted column followed by `=$` and a number reads as that assignment. */
  lemma ParseQuotedAssignment(column: string, after: string, n: nat, tail: string)
    requires Quotable(column)
    requires StartsWith(after, "=$") && ParseNat(after[2..]) == Some((n, tail))
    ensures ParseAssignment("\"" + column + "\"" + after) == Some((Assignment(column, n), tail))
  {
    var s := "\"" + column + "\"" + after;
    var k := |column|;
    assert s[1..] == column + ['"'] + after;
    CharsBeforeOfAppend(column, '"', after);
    assert s[1..k + 1] == column;
    assert s[k + 2..] == after;
  }

  lemma ParseRenderedAssignment(a: Assignment, rest: string)
    requires Quotable(a.column)
    requires rest == "" || !IsDigit(rest[0])
    ensures ParseAssignment(RenderAssignment(a) + rest) == Some((a, rest))
  {
    var d := NatToString(a.placeholder);
    var after := "=$" + d + rest;
    assert RenderAssignment(a) + rest == "\"" + a.column + "\"" + after;
    assert after[2..] == d + rest;
    ParseNatOfNatToString(a.placeholder, rest);
    ParseQuotedAssignment(a.column, after, a.placeholder, rest);
  }

  /** Rendering a `SET` clause and reading it back gives the same assignments,
      so the rendered text determines every column and placeholder. */
  lemma {:induction false} ParseRenderedSetClause(assignments: seq<Assignment>)
    requires forall i :: 0 <= i < |assignments| ==> Quotable(assignments[i].column)
    ensures ParseSetClause(RenderSetClause(assignments)) == Some(assignments)
    decreases |assignments|
  {
    if |assignments| > 0 {
      ParseRenderedList(assignments);
    }
  }

  lemma RenderSetClauseSingle(a: Assignment)
    ensures RenderSetClause([a]) == RenderAssignment(a)
  {
  }

  lemma RenderSetClauseCons(assignments: seq<Assignment>)
    requires |assignments| >= 2
    ensures RenderSetClause(assignments)
         == RenderAssignment(assignments[0]) + ", " + RenderSetClause(assignments[1..])
  {
  }

  lemma {:induction false} ParseRenderedList(assignments: seq<Assignment>)
    requires |assignments| > 0
    requires forall i :: 0 <= i < |assignments| ==> Quotable(assignments[i].column)
    ensures RenderSetClause(assignments) != ""
    ensures ParseAssignmentList(RenderSetClause(assignments)) == Some(assignments)
    decreases |assignments|
  {
    var a := assignments[0];
    if |assignments| == 1 {
      assert [a] == assignments;
      RenderSetClauseSingle(a);
      ParseLastAssignment(a);
    } else {
      var tail := assignments[1..];
      var t := RenderSetClause(tail);
      ParseRenderedList(tail);
      RenderSetClauseCons(assignments);
      ParseNextAssignment(a, t);
      assert [a] + tail == assignments;
      assert |RenderAssignment(a) + ", " + t| > 0;
    }
  }

  lemma {:induction false} ParseLastAssignment(a: Assignment)
    requires Quotable(a.column)
    ensures ParseAssignmentList(RenderAssignment(a)) == Some([a])
  {
    ParseRenderedAssignment(a, "");
    assert RenderAssignment(a) + "" == RenderAssignment(a);
  }

  /** An assignment in front of a list separated by `", "` is read first. */
  lemma {:induction false} ParseNextAssignment(a: Assignment, t: string)
    requires Quotable(a.column)
    ensures ParseAssignmentList(t).Some? ==>
      ParseAssignmentList(RenderAssignment(a) + ", " + t) == Some([a] + ParseAssignmentList(t).value)
  {
    assert (", " + t)[0] == ',';
    ParseRenderedAssignment(a, ", " + t);
    assert RenderAssignment(a) + ", " + t == RenderAssignment(a) + (", " + t);
    StartsWithAppend(", ", t);
  }

  /** The return value of `sqlForPartialUpdate`: `{setCols, values}`. */
  datatype SetClause = SetClause(setCols: string, values: seq<Value>)

  /** The assignment of the i-th key: its column and placeholder `i + 1`. */
  function Assignments(data: seq<(string, Value)>, jsToSql: Aliases): seq<Assignment> {
    seq(|data|, i requires 0 <= i < |data| => Assignment(ColumnName(data[i].0, jsToSql), i + 1))
  }

  /** `sqlForPartialUpdate(dataToUpdate, jsToSql)`. */
  function PartialUpdate(data: Object, jsToSql: Aliases): (r: Result<SetClause, Error>)
    ensures r.Failure? <==> |data| == 0
    ensures r.Failure? ==> r.error == BadRequest(["No data"])
    ensures r.Success? ==> |r.value.values| == |data|
    ensures r.Success? ==> forall i :: 0 <= i < |data| ==> r.value.values[i] == data[i].1
  {
    if |data| == 0 then Failure(BadRequest(["No data"]))
    else
      Success(SetClause(
        RenderSetClause(Assignments(data, jsToSql)),
        seq(|data|, i requires 0 <= i < |data| => data[i].1)))
  }

  /** The `SET` text reads back as exactly one assignment per key, in key
      order: the i-th names the key's column and holds placeholder `$<i+1>`,
      so placeholders run `$1..$n` and the i-th binds the i-th value. */
  lemma PartialUpdateSetCols(data: Object, jsToSql: Aliases)
    requires |data| > 0
    requires forall i :: 0 <= i < |data| ==> Quotable(ColumnName(data[i].0, jsToSql))
    ensures PartialUpdate(data, jsToSql).Success?
    ensures var parsed := ParseSetClause(PartialUpdate(data, jsToSql).value.setCols);
      && parsed.Some?
      && |parsed.value| == |data|
      && forall i :: 0 <= i < |data| ==>
           parsed.value[i].column == ColumnName(data[i].0, jsToSql)
           && parsed.value[i].placeholder == i + 1
  {
    ParseRenderedSetClause(Assignments(data, jsToSql));
  }

  /** Aliases of keys the data does not have make no difference, nor does
      how the aliases of its own keys are spelt as long as they resolve to
      the same columns. */
  lemma PartialUpdateIgnoresUnusedAliases(data: Object, jsToSql: Aliases, other: Aliases)
    requires forall i :: 0 <= i < |data| ==> ColumnName(data[i].0, jsToSql) == ColumnName(data[i].0, other)
    ensures PartialUpdate(data, jsToSql) == PartialUpdate(data, other)
  {
    assert Assignments(data, jsToSql) == Assignments(data, other);
  }

  /** The restriction of an alias map to the keys of `data`. */
  lemma PartialUpdateNeedsOnlyOwnAliases(data: Object, jsToSql: Aliases)
    ensures PartialUpdate(data, jsToSql)
         == PartialUpdate(data, map k | k in jsToSql && k in Keys(data) :: jsToSql[k])
  {
    var restricted := map k | k in jsToSql && k in Keys(data) :: jsToSql[k];
    forall i | 0 <= i < |data|
      ensures ColumnName(data[i].0, jsToSql) == ColumnName(data[i].0, restricted)
    {
      assert Keys(data)[i] == data[i].0;
    }
    PartialUpdateIgnoresUnusedAliases(data, jsToSql, restricted);
  }

  /** The user example: `{firstName, lastName}` with an alias map that also
      lists `isAdmin`. */
  lemma UserUpdateExample()
    ensures PartialUpdate([("firstName", Str("Test")), ("lastName", Str("User"))],
                          map["firstName" := "first_name", "lastName" := "last_name", "isAdmin" := "is_admin"])
         == Success(SetClause("\"first_name\"=$1, \"last_name\"=$2", [Str("Test"), Str("User")]))
  {
    var data: Object := [("firstName", Str("Test")), ("lastName", Str("User"))];
    var jsToSql := map["firstName" := "first_name", "lastName" := "last_name", "isAdmin" := "is_admin"];
    assert ColumnName("firstName", jsToSql) == "first_name";
    assert ColumnName("lastName", jsToSql) == "last_name";
    TwoAssignments(data, jsToSql, "first_name", "last_name");
    UserSetCols();
  }

  /** The user example's `SET` text, spelt out as one literal. */
  lemma UserSetCols()
    ensures "\"" + "first_name" + "\"=$1, \"" + "last_name" + "\"=$2" == "\"first_name\"=$1, \"last_name\"=$2"
  {
  }

  /** The company example: `{name, numEmployees}`; `name` has no alias and
      `logoUrl` is not in the data. */
  lemma CompanyUpdateExample()
    ensures PartialUpdate([("name", Str("Test")), ("numEmployees", Int(10))],
                          map["numEmployees" := "num_employees", "logoUrl" := "logo_url"])
         == Success(SetClause("\"name\"=$1, \"num_employees\"=$2", [Str("Test"), Int(10)]))
  {
    var data: Object := [("name", Str("Test")), ("numEmployees", Int(10))];
    var jsToSql := map["numEmployees" := "num_employees", "logoUrl" := "logo_url"];
    assert "name" !in jsToSql;
    assert ColumnName("name", jsToSql) == "name";
    assert ColumnName("numEmployees", jsToSql) == "num_employees";
    TwoAssignments(data, jsToSql, "name", "num_employees");
    CompanySetCols();
  }

  /** The company example's `SET` text, spelt out as one literal. */
  lemma CompanySetCols()
    ensures "\"" + "name" + "\"=$1, \"" + "num_employees" + "\"=$2" == "\"name\"=$1, \"num_employees\"=$2"
  {
  }

  /** The output for a two-key object, spelt out. */
  lemma TwoAssignments(data: Object, jsToSql: Aliases, first: string, second: string)
    requires |data| == 2
    requires ColumnName(data[0].0, jsToSql) == first && ColumnName(data[1].0, jsToSql) == second
    ensures PartialUpdate(data, jsToSql)
         == Success(SetClause("\"" + first + "\"=$1, \"" + second + "\"=$2", [data[0].1, data[1].1]))
  {
    var assignments := Assignments(data, jsToSql);
    assert assignments == [Assignment(first, 1), Assignment(second, 2)];
    assert DigitChar(1) == '1' && DigitChar(2) == '2';
    assert NatToString(1) == "1" && NatToString(2) == "2";
    RenderSetClauseCons(assignments);
    assert assignments[1..] == [assignments[1]];
    RenderSetClauseSingle(assignments[1]);
    assert RenderSetClause(assignments)
        == "\"" + first + "\"=$1" + ", " + ("\"" + second + "\"=$2");
    assert seq(|data|, i requires 0 <= i < |data| => data[i].1) == [data[0].1, data[1].1];
    var q := "\"";
    assert "\"=$1, \"" == "\"=$1" + ", " + q;
    assert q + first + "\"=$1, \"" + second + "\"=$2"
        == q + first + "\"=$1" + ", " + (q + second + "\"=$2");
  }
}
