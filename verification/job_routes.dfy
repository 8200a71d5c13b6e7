/**
 The listing route `GET /jobs` (routes/jobs.js): an empty query string lists
 every job; otherwise `minSalary` and `hasEquity` are converted from their
 query-string text, the query is checked against the query schema, and the
 converted query becomes the filter of `Job.findAll`.
 */
module JobRoutes {
  import opened Wrappers
  import opened JsValues
  import opened JsNumber
  import opened Text
  import opened Errors
  import opened JobFilter

  /** An integer written as decimal digits after an optional `+` or `-`. */
  function ParseInteger(s: string): (r: Option<int>)
    ensures r.Some? ==> |s| > 0
  {
    if |s| == 0 then None
    else if s[0] == '-' || s[0] == '+' then
      var digits := s[1..];
      if |digits| > 0 && AllDigits(digits) then
        var n: int := DigitsValue(digits);
        Some(if s[0] == '-' then -n else n)
      else None
    else if AllDigits(s) then Some(DigitsValue(s))
    else None
  }

  /** Unary `+` on the values a query can hold: a number is itself, a
      boolean is `1` or `0`, `null` and the empty string are `0`, a string
      of decimal digits is the double nearest the integer it denotes, and
      any other string is `NaN`. */
  function ToNumber(v: Value): (r: Value)
    ensures r.Int? || r.NaN? || r.Infinity?
    ensures v.Int? || v.Infinity? ==> r == v
  {
    match v
    case Int(_) => v
    case Infinity(_) => v
    case Bool(b) => Int(if b then 1 else 0)
    case Null => Int(0)
    case NaN => NaN
    case Str(s) =>
      if s == "" then Int(0)
      else match ParseInteger(s)
        case Some(i) => NumberValue(i)
        case None => NaN
  }

  /** Converting the rendering of an integer gives the double nearest it,
      which is the integer itself when its magnitude is at most `2^53`. */
  lemma ToNumberOfIntToString(i: int)
    ensures ToNumber(Str(IntToString(i))) == NumberValue(i)
    ensures Abs(i) <= SignificandBound ==> ToNumber(Str(IntToString(i))) == Int(i)
  {
    ParseIntegerOfIntToString(i);
    NumberValueOfDouble(i);
  }

  /** The rendering of an integer parses back as that integer. */
  lemma ParseIntegerOfIntToString(i: int)
    ensures ParseInteger(IntToString(i)) == Some(i)
  {
    var s := IntToString(i);
    if i < 0 {
      assert s[1..] == NatToString(-i);
      DigitsValueOfNatToString(-i);
    } else {
      assert s == NatToString(i);
      DigitsValueOfNatToString(i);
    }
  }

  /** The value a query entry holds after the route's conversions. */
  function NormaliseValue(key: string, v: Value): (r: Value)
    ensures key == "hasEquity" && Truthy(v) ==> r == Bool(v == Str("true"))
    ensures key == "minSalary" && Truthy(v) ==> r == ToNumber(v)
    ensures (key != "hasEquity" && key != "minSalary") || !Truthy(v) ==> r == v
    ensures key == "hasEquity" ==> (Emits(key, r) <==> v == Str("true"))
  {
    if key == "minSalary" && Truthy(v) then ToNumber(v)
    else if key == "hasEquity" && Truthy(v) then Bool(v == Str("true"))
    else v
  }

  /** The query after the conversions: same keys in the same order, each
      value converted as `NormaliseValue` says. */
  function Normalise(q: Object): (r: Object)
    ensures Keys(r) == Keys(q)
    ensures |r| == |q|
    ensures forall i :: 0 <= i < |q| ==> r[i] == (q[i].0, NormaliseValue(q[i].0, q[i].1))
    ensures forall key :: key != "minSalary" && key != "hasEquity" ==> Lookup(r, key) == Lookup(q, key)
  {
    var r := seq(|q|, i requires 0 <= i < |q| => (q[i].0, NormaliseValue(q[i].0, q[i].1)));
    assert forall i :: 0 <= i < |q| ==> r[i].0 == q[i].0;
    r
  }

  /** The query schema check: the error messages for a query, none when it
      is valid. */
  type Validator = Object -> seq<string>

  /** What the handler passes to `Job.findAll`: `None` for a call without an
      argument, or the converted query; an invalid query is a `BadRequest`
      with the validator's messages and never reaches `findAll`. */
  function ListFilter(q: Object, validate: Validator): (r: Result<Option<Object>, Error>)
    ensures |q| == 0 ==> r == Success(None)
    ensures |q| > 0 && validate(Normalise(q)) != [] ==> r == Failure(BadRequest(validate(Normalise(q))))
    ensures |q| > 0 && validate(Normalise(q)) == [] ==> r == Success(Some(Normalise(q)))
  {
    if |q| == 0 then Success(None)
    else
      var n := Normalise(q);
      var errors := validate(n);
      if errors != [] then Failure(BadRequest(errors)) else Success(Some(n))
  }

  /** The statement the route runs, through `findAll` as written. */
  function ListStatement(q: Object, validate: Validator): (r: Result<Statement, Error>)
    ensures r.Success? <==> ListFilter(q, validate).Success?
    ensures r.Failure? ==> r.error.BadRequest?
    ensures |q| == 0 ==> r == Success(Statement(SelectJobs, []))
  {
    match ListFilter(q, validate)
    case Failure(e) => Failure(e)
    case Success(filter) => Success(FindAll(filter))
  }

  /** The statement the route runs with the corrected `findAll`. */
  function CorrectedListStatement(q: Object, validate: Validator): (r: Result<Statement, Error>)
    ensures r.Success? <==> ListFilter(q, validate).Success?
  {
    match ListFilter(q, validate)
    case Failure(e) => Failure(e)
    case Success(filter) => Success(FindAllCorrected(filter))
  }

  /** A `minSalary` sent as the decimal text of an integer, `0` included,
      arrives at `findAll` as the double nearest that integer: the integer
      itself up to `2^53` in magnitude. */
  lemma MinSalaryArrivesAsNumber(i: int)
    ensures NormaliseValue("minSalary", Str(IntToString(i))) == NumberValue(i)
    ensures Abs(i) <= SignificandBound ==> NormaliseValue("minSalary", Str(IntToString(i))) == Int(i)
  {
    ToNumberOfIntToString(i);
  }

  /** `?minSalary=9007199254740993` reaches `findAll` as `9007199254740992`. */
  lemma MinSalaryBeyondTwoToFiftyThree()
    ensures NormaliseValue("minSalary", Str("9007199254740993")) == Int(9007199254740992)
  {
    RenderTwoToFiftyThreePlusOne();
    MinSalaryArrivesAsNumber(9007199254740993);
    TwoToFiftyThreePlusOneRounds();
  }

  /** The decimal text of 2^53 + 1. */
  lemma RenderTwoToFiftyThreePlusOne()
    ensures IntToString(9007199254740993) == "9007199254740993"
  {
    RenderLeadingDigits();
    assert NatToString(900719925) == "900719925";
    assert NatToString(9007199254) == "9007199254";
    assert NatToString(90071992547) == "90071992547";
    assert NatToString(900719925474) == "900719925474";
    assert NatToString(9007199254740) == "9007199254740";
    assert NatToString(90071992547409) == "90071992547409";
    assert NatToString(900719925474099) == "900719925474099";
    assert NatToString(9007199254740993) == "9007199254740993";
  }

  /** The first eight digits of 2^53 + 1, rendered one digit at a time. */
  lemma RenderLeadingDigits()
    ensures NatToString(90071992) == "90071992"
  {
    assert NatToString(9) == "9";
    assert NatToString(90) == "90";
    assert NatToString(900) == "900";
    assert NatToString(9007) == "9007";
    assert NatToString(90071) == "90071";
    assert NatToString(900719) == "900719";
    assert NatToString(9007199) == "9007199";
    assert NatToString(90071992) == "90071992";
  }

  /** `GET /jobs?hasEquity=false`, once the schema accepts it, runs a
      statement ending in an empty `WHERE`; the corrected `findAll` lists
      every job. */
  lemma LoneFalseEquityQuery(validate: Validator)
    requires validate([("hasEquity", Bool(false))]) == []
    ensures ListStatement([("hasEquity", Str("false"))], validate) == Success(Statement(WherePrefix, []))
    ensures CorrectedListStatement([("hasEquity", Str("false"))], validate) == Success(Statement(SelectJobs, []))
  {
    var q: Object := [("hasEquity", Str("false"))];
    var n := Normalise(q);
    assert n[0] == ("hasEquity", Bool(false));
    assert n == [("hasEquity", Bool(false))];
    EmptyConditionForLoneInertEntry();
  }

  /** `GET /jobs?hasEquity=false&title=j`, once the schema accepts it, binds
      one value but names placeholder `$2`; corrected, it names `$1`. */
  lemma FalseEquityBeforeTitleQuery(validate: Validator)
    requires validate([("hasEquity", Bool(false)), ("title", Str("j"))]) == []
    ensures ListStatement([("hasEquity", Str("false")), ("title", Str("j"))], validate)
         == Success(Statement(WherePrefix + "\"title\" ILIKE '%' || $2 || '%'", [Str("j")]))
    ensures CorrectedListStatement([("hasEquity", Str("false")), ("title", Str("j"))], validate)
         == Success(Statement(WherePrefix + "\"title\" ILIKE '%' || $1 || '%'", [Str("j")]))
  {
    var q: Object := [("hasEquity", Str("false")), ("title", Str("j"))];
    var n := Normalise(q);
    assert n[0] == ("hasEquity", Bool(false)) && n[1] == ("title", Str("j"));
    assert n == [("hasEquity", Bool(false)), ("title", Str("j"))];
    PlaceholderGapAfterInertEntry();
  }

  /** `GET /jobs?title=j2&hasEquity=false`: the title comes first, so its
      predicate holds `$1`, and the `false` adds nothing. */
  lemma TitleThenFalseEquityQuery(validate: Validator)
    requires validate([("title", Str("j2")), ("hasEquity", Bool(false))]) == []
    ensures ListStatement([("title", Str("j2")), ("hasEquity", Str("false"))], validate)
         == Success(Statement(WherePrefix + "\"title\" ILIKE '%' || $1 || '%'", [Str("j2")]))
  {
    var q: Object := [("title", Str("j2")), ("hasEquity", Str("false"))];
    var n: Object := [("title", Str("j2")), ("hasEquity", Bool(false))];
    assert Normalise(q)[0] == n[0] && Normalise(q)[1] == n[1];
    assert Normalise(q) == n;
    assert ListFilter(q, validate) == Success(Some(n));
    TitleThenFalseEquityStatement();
  }

  lemma TitleThenFalseEquityStatement()
    ensures FindAll(Some([("title", Str("j2")), ("hasEquity", Bool(false))]))
         == Statement(WherePrefix + "\"title\" ILIKE '%' || $1 || '%'", [Str("j2")])
  {
    var n: Object := [("title", Str("j2")), ("hasEquity", Bool(false))];
    assert n[1..] == [("hasEquity", Bool(false))];
    assert n[1..][1..] == [];
    assert Emit("hasEquity", Bool(false), 2) == None;
    assert EntryClauses(n[1..], 1) == Where([], []);
    assert EntryClauses(n, 0) == Where([TitleLike(1)], [Str("j2")]);
    TitleText(1);
    assert DigitChar(1) == '1';
  }


  /** `GET /jobs?minSalary=100000`: the text becomes the number, bound to
      `$1` of a salary predicate. */
  lemma MinSalaryQuery(validate: Validator)
    requires validate([("minSalary", Int(100000))]) == []
    ensures ListStatement([("minSalary", Str("100000"))], validate)
         == Success(Statement(WherePrefix + "\"salary\" >= $1", [Int(100000)]))
  {
    var q: Object := [("minSalary", Str("100000"))];
    var n: Object := [("minSalary", Int(100000))];
    MinSalaryNormalised();
    assert ListFilter(q, validate) == Success(Some(n));
    assert n[1..] == [];
    assert EntryClauses(n, 0) == Where([SalaryAtLeast(1)], [Int(100000)]);
    RenderWhereSingle(SalaryAtLeast(1));
    assert NatToString(1) == "1";
    assert RenderWhere([SalaryAtLeast(1)]) == "\"salary\" >= $1";
  }

  lemma MinSalaryNormalised()
    ensures Normalise([("minSalary", Str("100000"))]) == [("minSalary", Int(100000))]
  {
    var q: Object := [("minSalary", Str("100000"))];
    assert IntToString(100000) == "100000";
    MinSalaryArrivesAsNumber(100000);
    assert Normalise(q)[0] == ("minSalary", Int(100000));
  }

}
