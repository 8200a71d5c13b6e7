/**
 The filter assembly of `Job.findAll` (models/job.js): each entry of the
 query object, in `Object.entries` order, may add one predicate to the
 `WHERE` clause and one value to the bound parameters.
 */
module JobFilter {
  import opened Wrappers
  import opened JsValues
  import opened Text

  /** One predicate of the `WHERE` clause, with the number of its placeholder. */
  datatype Predicate =
    | TitleLike(placeholder: nat)
    | SalaryAtLeast(placeholder: nat)
    | EquityAbove(placeholder: nat)

  const TitlePrefix: string := "\"title\" ILIKE '%' || $"
  const TitleSuffix: string := " || '%'"
  const SalaryPrefix: string := "\"salary\" >= $"
  const EquityPrefix: string := "\"equity\" > $"
  const And: string := " AND "

  function RenderPredicate(p: Predicate): string {
    match p
    case TitleLike(n) => TitlePrefix + NatToString(n) + TitleSuffix
    case SalaryAtLeast(n) => SalaryPrefix + NatToString(n)
    case EquityAbove(n) => EquityPrefix + NatToString(n)
  }

  /** The rendered predicates joined by `" AND "`; `RenderWhereIsJoin`
      shows this is `whereCols.join(' AND ')`. */
  function RenderWhere(predicates: seq<Predicate>): string
    decreases |predicates|
  {
    if |predicates| == 0 then ""
    else if |predicates| == 1 then RenderPredicate(predicates[0])
    else RenderPredicate(predicates[0]) + And + RenderWhere(predicates[1..])
  }

  lemma {:induction false} RenderWhereIsJoin(predicates: seq<Predicate>)
    ensures RenderWhere(predicates)
         == Join(seq(|predicates|, j requires 0 <= j < |predicates| => RenderPredicate(predicates[j])), And)
    decreases |predicates|
  {
    if |predicates| > 1 {
      var tail := predicates[1..];
      var parts := seq(|predicates|, j requires 0 <= j < |predicates| => RenderPredicate(predicates[j]));
      assert parts[1..] == seq(|tail|, j requires 0 <= j < |tail| => RenderPredicate(tail[j]));
      RenderWhereIsJoin(tail);
    }
  }

  /** Reads one predicate at the front of `s`. */
  function ParsePredicate(s: string): (r: Option<(Predicate, string)>)
    ensures r.Some? ==> |r.value.1| < |s|
  {
    if StartsWith(s, TitlePrefix) then
      match ParseNat(s[|TitlePrefix|..])
      case None => None
      case Some((n, rest)) =>
        if StartsWith(rest, TitleSuffix) then Some((TitleLike(n), rest[|TitleSuffix|..])) else None
    else if StartsWith(s, SalaryPrefix) then
      match ParseNat(s[|SalaryPrefix|..])
      case None => None
      case Some((n, rest)) => Some((SalaryAtLeast(n), rest))
    else if StartsWith(s, EquityPrefix) then
      match ParseNat(s[|EquityPrefix|..])
      case None => None
      case Some((n, rest)) => Some((EquityAbove(n), rest))
    else None
  }

  function ParsePredicateList(s: string): Option<seq<Predicate>>
    decreases |s|
  {
    match ParsePredicate(s)
    case None => None
    case Some((p, rest)) =>
      if rest == "" then Some([p])
      else if StartsWith(rest, And) then
        match ParsePredicateList(rest[|And|..])
        case None => None
        case Some(more) => Some([p] + more)
      else None
  }

  /** Reads a whole `WHERE` condition back into its predicates. */
  function ParseWhere(s: string): Option<seq<Predicate>> {
    if s == "" then Some([]) else ParsePredicateList(s)
  }

  lemma ParseRenderedPredicate(p: Predicate, rest: string)
    requires rest == "" || !IsDigit(rest[0])
    ensures ParsePredicate(RenderPredicate(p) + rest) == Some((p, rest))
  {
    match p
    case TitleLike(n) => ParseRenderedTitle(n, rest);
    case SalaryAtLeast(n) => ParseRenderedSalary(n, rest);
    case EquityAbove(n) => ParseRenderedEquity(n, rest);
  }

  lemma ParseRenderedTitle(n: nat, rest: string)
    ensures ParsePredicate(RenderPredicate(TitleLike(n)) + rest) == Some((TitleLike(n), rest))
  {
    var d := NatToString(n);
    var after := TitleSuffix + rest;
    assert RenderPredicate(TitleLike(n)) + rest == TitlePrefix + (d + after);
    StartsWithAppend(TitlePrefix, d + after);
    ParseNatOfNatToString(n, after);
    StartsWithAppend(TitleSuffix, rest);
  }

  lemma ParseRenderedSalary(n: nat, rest: string)
    requires rest == "" || !IsDigit(rest[0])
    ensures ParsePredicate(RenderPredicate(SalaryAtLeast(n)) + rest) == Some((SalaryAtLeast(n), rest))
  {
    var d := NatToString(n);
    var s := RenderPredicate(SalaryAtLeast(n)) + rest;
    assert s == SalaryPrefix + (d + rest);
    assert !StartsWith(s, TitlePrefix) by {
      assert s[1] == 's' && TitlePrefix[1] == 't';
      if |TitlePrefix| <= |s| {
        assert s[..|TitlePrefix|][1] == s[1];
      }
    }
    assert StartsWith(s, SalaryPrefix);
    assert s[|SalaryPrefix|..] == d + rest;
    ParseNatOfNatToString(n, rest);
  }

  lemma ParseRenderedEquity(n: nat, rest: string)
    requires rest == "" || !IsDigit(rest[0])
    ensures ParsePredicate(RenderPredicate(EquityAbove(n)) + rest) == Some((EquityAbove(n), rest))
  {
    var d := NatToString(n);
    var s := RenderPredicate(EquityAbove(n)) + rest;
    assert s == EquityPrefix + (d + rest);
    assert !StartsWith(s, TitlePrefix) && !StartsWith(s, SalaryPrefix) by {
      assert s[1] == 'e' && TitlePrefix[1] == 't' && SalaryPrefix[1] == 's';
      if |TitlePrefix| <= |s| {
        assert s[..|TitlePrefix|][1] == s[1];
      }
      if |SalaryPrefix| <= |s| {
        assert s[..|SalaryPrefix|][1] == s[1];
      }
    }
    assert StartsWith(s, EquityPrefix);
    assert s[|EquityPrefix|..] == d + rest;
    ParseNatOfNatToString(n, rest);
  }

  lemma RenderWhereSingle(p: Predicate)
    ensures RenderWhere([p]) == RenderPredicate(p)
  {
  }

  lemma RenderWhereCons(predicates: seq<Predicate>)
    requires |predicates| >= 2
    ensures RenderWhere(predicates) == RenderPredicate(predicates[0]) + And + RenderWhere(predicates[1..])
  {
  }

  lemma {:induction false} ParseRenderedPredicateList(predicates: seq<Predicate>)
    requires |predicates| > 0
    ensures RenderWhere(predicates) != ""
    ensures ParsePredicateList(RenderWhere(predicates)) == Some(predicates)
    decreases |predicates|
  {
    var p := predicates[0];
    if |predicates| == 1 {
      ParseLastPredicate(p);
      assert [p] == predicates;
    } else {
      var tail := predicates[1..];
      ParseRenderedPredicateList(tail);
      ParseNextPredicate(p, RenderWhere(tail));
      assert [p] + tail == predicates;
    }
  }

  lemma {:induction false} ParseLastPredicate(p: Predicate)
    ensures ParsePredicateList(RenderPredicate(p)) == Some([p])
  {
    ParseRenderedPredicate(p, "");
    assert RenderPredicate(p) + "" == RenderPredicate(p);
  }

  /** A predicate in front of a list separated by `" AND "` is read first. */
  lemma {:induction false} ParseNextPredicate(p: Predicate, t: string)
    ensures ParsePredicateList(t).Some? ==>
      ParsePredicateList(RenderPredicate(p) + And + t) == Some([p] + ParsePredicateList(t).value)
  {
    assert (And + t)[0] == ' ';
    ParseRenderedPredicate(p, And + t);
    assert RenderPredicate(p) + And + t == RenderPredicate(p) + (And + t);
    StartsWithAppend(And, t);
  }

  /** The rendered condition reads back as exactly its predicates. */
  lemma {:induction false} ParseRenderedWhere(predicates: seq<Predicate>)
    ensures ParseWhere(RenderWhere(predicates)) == Some(predicates)
  {
    if |predicates| > 0 {
      ParseRenderedPredicateList(predicates);
    }
  }

  /** Whether an entry contributes a predicate: `title` and `minSalary`
      always do, `hasEquity` only when its value is exactly `true`. */
  predicate Emits(key: string, v: Value) {
    key == "title" || key == "minSalary" || (key == "hasEquity" && v == Bool(true))
  }

  /** The predicate and bound value an entry contributes, with placeholder `n`;
      the equity predicate binds `0`, not the entry's value. */
  function Emit(key: string, v: Value, n: nat): (r: Option<(Predicate, Value)>)
    ensures r.Some? <==> Emits(key, v)
    ensures r.Some? ==> r.value.0.placeholder == n
    ensures r.Some? && r.value.0.EquityAbove? ==> r.value.1 == Int(0)
    ensures r.Some? && !r.value.0.EquityAbove? ==> r.value.1 == v
    ensures key == "title" ==> r == Some((TitleLike(n), v))
    ensures key == "minSalary" ==> r == Some((SalaryAtLeast(n), v))
    ensures key == "hasEquity" && v == Bool(true) ==> r == Some((EquityAbove(n), Int(0)))
  {
    if key == "title" then Some((TitleLike(n), v))
    else if key == "minSalary" then Some((SalaryAtLeast(n), v))
    else if key == "hasEquity" && v == Bool(true) then Some((EquityAbove(n), Int(0)))
    else None
  }

  /** The `whereCols` and `values` arrays. */
  datatype Where = Where(predicates: seq<Predicate>, values: seq<Value>)

  /** Placeholders strictly increase along the predicates. */
  predicate Increasing(predicates: seq<Predicate>) {
    forall j, j' :: 0 <= j < j' < |predicates| ==> predicates[j].placeholder < predicates[j'].placeholder
  }

  /** Placeholders are exactly `first + 1`, `first + 2`, ... in order. */
  predicate Consecutive(predicates: seq<Predicate>, first: nat) {
    forall j :: 0 <= j < |predicates| ==> predicates[j].placeholder == first + j + 1
  }

  /** Every predicate, with its value, is what the entry whose index (counted
      from `position`) is one less than its placeholder contributes. */
  predicate FromEntries(entries: seq<(string, Value)>, position: nat, w: Where) {
    && |w.predicates| == |w.values|
    && forall j :: 0 <= j < |w.predicates| ==>
         && position < w.predicates[j].placeholder <= position + |entries|
         && Emit(entries[w.predicates[j].placeholder - position - 1].0,
                 entries[w.predicates[j].placeholder - position - 1].1,
                 w.predicates[j].placeholder)
            == Some((w.predicates[j], w.values[j]))
  }

  /** Every contributing entry has a predicate carrying its own placeholder. */
  predicate CoversEntries(entries: seq<(string, Value)>, position: nat, predicates: seq<Predicate>) {
    forall i :: 0 <= i < |entries| && Emits(entries[i].0, entries[i].1) ==>
      exists j :: 0 <= j < |predicates| && predicates[j].placeholder == position + i + 1
  }

  /** The `forEach` over `Object.entries(query)` as written: the entry at index
      `i` (counting from `position`) uses placeholder `i + 1` whether or not the
      entries before it contributed anything. */
  function EntryClauses(entries: seq<(string, Value)>, position: nat): (r: Where)
    ensures |r.predicates| == |r.values| <= |entries|
    decreases |entries|
  {
    if |entries| == 0 then Where([], [])
    else
      var rest := EntryClauses(entries[1..], position + 1);
      match Emit(entries[0].0, entries[0].1, position + 1)
      case None => rest
      case Some((p, v)) => Where([p] + rest.predicates, [v] + rest.values)
  }

  /** One step of the `forEach`: the first entry's contribution, if any, comes
      before everything the remaining entries contribute. */
  lemma EntryClausesStep(entries: seq<(string, Value)>, position: nat)
    requires |entries| > 0
    ensures Emits(entries[0].0, entries[0].1) ==>
      var e := Emit(entries[0].0, entries[0].1, position + 1).value;
      EntryClauses(entries, position)
        == Where([e.0] + EntryClauses(entries[1..], position + 1).predicates,
                 [e.1] + EntryClauses(entries[1..], position + 1).values)
    ensures !Emits(entries[0].0, entries[0].1) ==>
      EntryClauses(entries, position) == EntryClauses(entries[1..], position + 1)
  {
  }

  /** Each predicate belongs to an entry that contributes, as that entry's
      predicate and value, and placeholders strictly increase, so the
      predicates come in entry order and no placeholder is used twice. */
  lemma {:induction false} EntryClausesSound(entries: seq<(string, Value)>, position: nat)
    ensures Increasing(EntryClauses(entries, position).predicates)
    ensures FromEntries(entries, position, EntryClauses(entries, position))
  {
    EntryClausesFromEntries(entries, position);
    EntryClausesIncreasing(entries, position);
  }

  lemma {:induction false} EntryClausesFromEntries(entries: seq<(string, Value)>, position: nat)
    ensures FromEntries(entries, position, EntryClauses(entries, position))
    decreases |entries|
  {
    if |entries| > 0 {
      var rest := EntryClauses(entries[1..], position + 1);
      EntryClausesFromEntries(entries[1..], position + 1);
      EntryClausesStep(entries, position);
      FromEntriesWiden(entries, position, rest);
      match Emit(entries[0].0, entries[0].1, position + 1)
      case None =>
      case Some((p, v)) => FromEntriesCons(entries, position, p, v, rest);
    }
  }

  /** Clauses owned by the entries after the first are owned by all of them. */
  lemma FromEntriesWiden(entries: seq<(string, Value)>, position: nat, w: Where)
    requires |entries| > 0 && FromEntries(entries[1..], position + 1, w)
    ensures FromEntries(entries, position, w)
  {
    forall j | 0 <= j < |w.predicates|
      ensures position < w.predicates[j].placeholder <= position + |entries|
      ensures Emit(entries[w.predicates[j].placeholder - position - 1].0,
                   entries[w.predicates[j].placeholder - position - 1].1,
                   w.predicates[j].placeholder)
           == Some((w.predicates[j], w.values[j]))
    {
      var i := w.predicates[j].placeholder - position - 1;
      assert entries[1..][i - 1] == entries[i];
    }
  }

  /** The first entry's contribution may be put in front. */
  lemma FromEntriesCons(entries: seq<(string, Value)>, position: nat, p: Predicate, v: Value, w: Where)
    requires |entries| > 0 && Emit(entries[0].0, entries[0].1, position + 1) == Some((p, v))
    requires FromEntries(entries, position, w)
    ensures FromEntries(entries, position, Where([p] + w.predicates, [v] + w.values))
  {
    var w' := Where([p] + w.predicates, [v] + w.values);
    forall j | 0 <= j < |w'.predicates|
      ensures position < w'.predicates[j].placeholder <= position + |entries|
      ensures Emit(entries[w'.predicates[j].placeholder - position - 1].0,
                   entries[w'.predicates[j].placeholder - position - 1].1,
                   w'.predicates[j].placeholder)
           == Some((w'.predicates[j], w'.values[j]))
    {
      if j > 0 {
        assert w'.predicates[j] == w.predicates[j - 1] && w'.values[j] == w.values[j - 1];
      }
    }
  }

  /** The placeholders the code as written uses lie strictly above `position`. */
  lemma {:induction false} EntryClausesAbove(entries: seq<(string, Value)>, position: nat)
    ensures forall j :: 0 <= j < |EntryClauses(entries, position).predicates| ==>
      position < EntryClauses(entries, position).predicates[j].placeholder
    decreases |entries|
  {
    if |entries| > 0 {
      EntryClausesAbove(entries[1..], position + 1);
      EntryClausesStep(entries, position);
    }
  }

  lemma {:induction false} EntryClausesIncreasing(entries: seq<(string, Value)>, position: nat)
    ensures Increasing(EntryClauses(entries, position).predicates)
    decreases |entries|
  {
    if |entries| > 0 {
      var w := EntryClauses(entries, position);
      var rest := EntryClauses(entries[1..], position + 1);
      EntryClausesIncreasing(entries[1..], position + 1);
      EntryClausesAbove(entries[1..], position + 1);
      EntryClausesStep(entries, position);
      var k := if Emits(entries[0].0, entries[0].1) then 1 else 0;
      assert |w.predicates| == |rest.predicates| + k;
      forall j, j' | 0 <= j < j' < |w.predicates|
        ensures w.predicates[j].placeholder < w.predicates[j'].placeholder
      {
        assert w.predicates[j'] == rest.predicates[j' - k];
        if j >= k {
          assert w.predicates[j] == rest.predicates[j - k];
        } else {
          assert w.predicates[j].placeholder == position + 1;
        }
      }
    }
  }

  lemma {:induction false} EntryClausesCompleteAt(entries: seq<(string, Value)>, position: nat, i: nat)
    requires i < |entries| && Emits(entries[i].0, entries[i].1)
    ensures exists j :: 0 <= j < |EntryClauses(entries, position).predicates|
                     && EntryClauses(entries, position).predicates[j].placeholder == position + i + 1
    decreases i
  {
    var ps := EntryClauses(entries, position).predicates;
    var rest := EntryClauses(entries[1..], position + 1).predicates;
    EntryClausesStep(entries, position);
    if i == 0 {
      assert ps[0].placeholder == position + 1;
    } else {
      assert entries[1..][i - 1] == entries[i];
      EntryClausesCompleteAt(entries[1..], position + 1, i - 1);
      var j :| 0 <= j < |rest| && rest[j].placeholder == position + 1 + (i - 1) + 1;
      var k := if Emits(entries[0].0, entries[0].1) then j + 1 else j;
      assert ps[k] == rest[j];
      assert ps[k].placeholder == position + i + 1;
    }
  }

  /** Every contributing entry does contribute, at its own placeholder. */
  lemma {:induction false} EntryClausesComplete(entries: seq<(string, Value)>, position: nat)
    ensures CoversEntries(entries, position, EntryClauses(entries, position).predicates)
  {
    forall i | 0 <= i < |entries| && Emits(entries[i].0, entries[i].1)
      ensures exists j :: 0 <= j < |EntryClauses(entries, position).predicates|
                       && EntryClauses(entries, position).predicates[j].placeholder == position + i + 1
    {
      EntryClausesCompleteAt(entries, position, i);
    }
  }

  const SelectJobs: string := "SELECT id, title, salary, equity, company_handle AS \"companyHandle\" FROM jobs"
  const WherePrefix: string := SelectJobs + " WHERE "

  /** A query text and its bound parameters, as handed to `db.query`. */
  datatype Statement = Statement(sql: string, params: seq<Value>)

  /** `Job.findAll(query)` as written: a missing query selects every job; any
      query object, even one no entry of which contributes, gets a `WHERE`. */
  function FindAll(query: Option<Object>): (r: Statement)
    ensures query.None? ==> r.sql == SelectJobs && r.params == []
    ensures query.Some? ==> StartsWith(r.sql, WherePrefix)
  {
    match query
    case None => Statement(SelectJobs, [])
    case Some(q) =>
      var w := EntryClauses(q, 0);
      Statement(WherePrefix + RenderWhere(w.predicates), w.values)
  }

  /** What the filtered statement says, read back from its text: its
      condition parses as predicates that are, with the parameters, exactly
      the contributions of the query's entries: in entry order, each carrying
      placeholder `$<i+1>` for its entry's index `i` and bound to that entry's
      value (`0` for equity), one for every contributing entry. */
  lemma {:induction false} FindAllFiltered(q: Object)
    ensures ParseWhere(FindAll(Some(q)).sql[|WherePrefix|..]) == Some(EntryClauses(q, 0).predicates)
    ensures FindAll(Some(q)).params == EntryClauses(q, 0).values
    ensures Increasing(EntryClauses(q, 0).predicates)
    ensures FromEntries(q, 0, EntryClauses(q, 0))
    ensures CoversEntries(q, 0, EntryClauses(q, 0).predicates)
  {
    var w := EntryClauses(q, 0);
    assert FindAll(Some(q)).sql[|WherePrefix|..] == RenderWhere(w.predicates);
    ParseRenderedWhere(w.predicates);
    EntryClausesSound(q, 0);
    EntryClausesComplete(q, 0);
  }

  /** An entry that contributes nothing may be dropped from the end of the
      query without changing the statement. */
  lemma {:induction false} FindAllIgnoresTrailingInertEntry(q: Object, key: string, v: Value)
    requires key !in Keys(q)
    requires !Emits(key, v)
    ensures DistinctKeys(q + [(key, v)])
    ensures FindAll(Some(q + [(key, v)])) == FindAll(Some(q))
  {
    forall i | 0 <= i < |q|
      ensures q[i].0 != key
    {
      assert Keys(q)[i] == q[i].0;
    }
    TrailingInertEntry(q, key, v, 0);
  }

  lemma {:induction false} TrailingInertEntry(entries: seq<(string, Value)>, key: string, v: Value, position: nat)
    requires !Emits(key, v)
    ensures EntryClauses(entries + [(key, v)], position) == EntryClauses(entries, position)
    decreases |entries|
  {
    if |entries| == 0 {
      assert ([(key, v)])[1..] == [];
    } else {
      assert (entries + [(key, v)])[1..] == entries[1..] + [(key, v)];
      TrailingInertEntry(entries[1..], key, v, position + 1);
    }
  }

  /** The corrected assembly: a predicate's placeholder counts the predicates
      emitted before it, so placeholders run `$1..$n` with no gap. */
  function RenumberedClauses(entries: seq<(string, Value)>, emitted: nat): (r: Where)
    ensures |r.predicates| == |r.values|
    ensures Consecutive(r.predicates, emitted)
    decreases |entries|
  {
    if |entries| == 0 then Where([], [])
    else
      match Emit(entries[0].0, entries[0].1, emitted + 1)
      case None => RenumberedClauses(entries[1..], emitted)
      case Some((p, v)) =>
        var rest := RenumberedClauses(entries[1..], emitted + 1);
        Where([p] + rest.predicates, [v] + rest.values)
  }

  function WithPlaceholder(p: Predicate, n: nat): Predicate {
    match p
    case TitleLike(_) => TitleLike(n)
    case SalaryAtLeast(_) => SalaryAtLeast(n)
    case EquityAbove(_) => EquityAbove(n)
  }

  /** The predicates renumbered consecutively from `first + 1`. */
  function Renumber(predicates: seq<Predicate>, first: nat): seq<Predicate> {
    seq(|predicates|, j requires 0 <= j < |predicates| => WithPlaceholder(predicates[j], first + j + 1))
  }

  /** The corrected assembly emits the same predicates, in the same order,
      with the same bound values as the code as written; only the
      placeholder numbers differ. */
  lemma {:induction false} RenumberedMatchesAsWritten(entries: seq<(string, Value)>, position: nat, emitted: nat)
    ensures RenumberedClauses(entries, emitted)
         == Where(Renumber(EntryClauses(entries, position).predicates, emitted),
                  EntryClauses(entries, position).values)
    decreases |entries|
  {
    if |entries| > 0 {
      EntryClausesStep(entries, position);
      var w := EntryClauses(entries[1..], position + 1);
      match Emit(entries[0].0, entries[0].1, position + 1)
      case None =>
        RenumberedMatchesAsWritten(entries[1..], position + 1, emitted);
      case Some((p, v)) =>
        RenumberedMatchesAsWritten(entries[1..], position + 1, emitted + 1);
        assert Renumber([p] + w.predicates, emitted)
            == [WithPlaceholder(p, emitted + 1)] + Renumber(w.predicates, emitted + 1);
    }
  }

  /** `findAll` with the two defects corrected: placeholders are numbered by
      emitted predicate, and a query that contributes no predicate takes the
      unfiltered path instead of producing an empty `WHERE`. */
  function FindAllCorrected(query: Option<Object>): Statement {
    match query
    case None => Statement(SelectJobs, [])
    case Some(q) =>
      var w := RenumberedClauses(q, 0);
      if |w.predicates| == 0 then Statement(SelectJobs, [])
      else Statement(WherePrefix + RenderWhere(w.predicates), w.values)
  }

  /** Whether some entry of the query contributes a predicate. */
  predicate Filters(q: seq<(string, Value)>) {
    exists i :: 0 <= i < |q| && Emits(q[i].0, q[i].1)
  }

  /** The corrected statement is well formed: the unfiltered select exactly
      when no entry contributes, and otherwise a non-empty condition whose
      placeholders are exactly `$1..$n` for its `n` bound values, holding the
      predicates and values the code as written emits. */
  lemma {:induction false} FindAllCorrectedBindsEveryPlaceholder(q: Object)
    ensures !Filters(q) ==> FindAllCorrected(Some(q)) == Statement(SelectJobs, [])
    ensures Filters(q) ==> StartsWith(FindAllCorrected(Some(q)).sql, WherePrefix)
    ensures Filters(q) ==>
      ParseWhere(FindAllCorrected(Some(q)).sql[|WherePrefix|..]) == Some(Renumber(EntryClauses(q, 0).predicates, 0))
    ensures Filters(q) ==> FindAllCorrected(Some(q)).params == EntryClauses(q, 0).values
    ensures Filters(q) ==> |FindAllCorrected(Some(q)).params| > 0
    ensures Consecutive(Renumber(EntryClauses(q, 0).predicates, 0), 0)
  {
    RenumberedMatchesAsWritten(q, 0, 0);
    if |EntryClauses(q, 0).predicates| > 0 {
      PredicateMeansContribution(q);
      CorrectedFiltered(q);
    } else {
      EntryClausesComplete(q, 0);
    }
  }

  /** A predicate in the code as written comes from a contributing entry. */
  lemma {:induction false} PredicateMeansContribution(q: Object)
    requires |EntryClauses(q, 0).predicates| > 0
    ensures Filters(q)
  {
    var w := EntryClauses(q, 0);
    EntryClausesFromEntries(q, 0);
    var i := w.predicates[0].placeholder - 1;
    assert Emit(q[i].0, q[i].1, i + 1).Some?;
  }

  lemma {:induction false} CorrectedFiltered(q: Object)
    requires Filters(q)
    ensures StartsWith(FindAllCorrected(Some(q)).sql, WherePrefix)
    ensures ParseWhere(FindAllCorrected(Some(q)).sql[|WherePrefix|..]) == Some(Renumber(EntryClauses(q, 0).predicates, 0))
    ensures FindAllCorrected(Some(q)).params == EntryClauses(q, 0).values
    ensures |FindAllCorrected(Some(q)).params| > 0
  {
    var w := EntryClauses(q, 0);
    RenumberedMatchesAsWritten(q, 0, 0);
    EntryClausesComplete(q, 0);
    var i :| 0 <= i < |q| && Emits(q[i].0, q[i].1);
    assert exists j :: 0 <= j < |w.predicates| && w.predicates[j].placeholder == i + 1;
    assert |w.predicates| > 0;
    var sql := WherePrefix + RenderWhere(Renumber(w.predicates, 0));
    assert FindAllCorrected(Some(q)).sql == sql;
    assert sql[|WherePrefix|..] == RenderWhere(Renumber(w.predicates, 0));
    assert sql[..|WherePrefix|] == WherePrefix;
    ParseRenderedWhere(Renumber(w.predicates, 0));
  }

  /** In the corrected assembly an entry that contributes nothing may be
      removed from anywhere in the query without changing the clauses:
      `hasEquity: false` and no `hasEquity` at all select the same jobs. */
  lemma {:induction false} RenumberedIgnoresInertEntry(before: seq<(string, Value)>, key: string, v: Value,
                                                      after: seq<(string, Value)>, emitted: nat)
    requires !Emits(key, v)
    ensures RenumberedClauses(before + [(key, v)] + after, emitted) == RenumberedClauses(before + after, emitted)
    decreases |before|
  {
    if |before| == 0 {
      assert before + [(key, v)] + after == [(key, v)] + after;
      assert ([(key, v)] + after)[1..] == after;
      assert before + after == after;
    } else {
      var e := before[0];
      assert (before + [(key, v)] + after)[0] == e && (before + after)[0] == e;
      assert (before + [(key, v)] + after)[1..] == before[1..] + [(key, v)] + after;
      assert (before + after)[1..] == before[1..] + after;
      match Emit(e.0, e.1, emitted + 1)
      case None => RenumberedIgnoresInertEntry(before[1..], key, v, after, emitted);
      case Some(_) => RenumberedIgnoresInertEntry(before[1..], key, v, after, emitted + 1);
    }
  }

  /** The clauses behind `PlaceholderGapAfterInertEntry`. */
  lemma GapClauses()
    ensures EntryClauses([("hasEquity", Bool(false)), ("title", Str("j"))], 0) == Where([TitleLike(2)], [Str("j")])
    ensures RenumberedClauses([("hasEquity", Bool(false)), ("title", Str("j"))], 0) == Where([TitleLike(1)], [Str("j")])
  {
    var q := [("hasEquity", Bool(false)), ("title", Str("j"))];
    assert q[1..] == [("title", Str("j"))];
    assert q[1..][1..] == [];
    assert Emit("hasEquity", Bool(false), 1) == None;
    assert Emit("title", Str("j"), 2) == Some((TitleLike(2), Str("j")));
    assert Emit("title", Str("j"), 1) == Some((TitleLike(1), Str("j")));
    assert EntryClauses(q[1..], 1) == Where([TitleLike(2)], [Str("j")]);
    assert RenumberedClauses(q[1..], 0) == Where([TitleLike(1)], [Str("j")]);
  }

  /** A lone title predicate with a one-digit placeholder, as text. */
  lemma TitleText(n: nat)
    requires 0 < n < 10
    ensures RenderWhere([TitleLike(n)]) == "\"title\" ILIKE '%' || $" + [DigitChar(n)] + " || '%'"
  {
    RenderWhereSingle(TitleLike(n));
    assert NatToString(n) == [DigitChar(n)];
  }

  /** As written, the placeholder of `title` counts the `hasEquity: false`
      entry before it: the condition names `$2` but only one value is bound.
      Corrected, it names `$1`. */
  lemma {:induction false} PlaceholderGapAfterInertEntry()
    ensures FindAll(Some([("hasEquity", Bool(false)), ("title", Str("j"))]))
         == Statement(WherePrefix + "\"title\" ILIKE '%' || $2 || '%'", [Str("j")])
    ensures FindAllCorrected(Some([("hasEquity", Bool(false)), ("title", Str("j"))]))
         == Statement(WherePrefix + "\"title\" ILIKE '%' || $1 || '%'", [Str("j")])
  {
    GapClauses();
    TitleText(2);
    TitleText(1);
    assert DigitChar(1) == '1' && DigitChar(2) == '2';
  }

  /** As written, a query whose only entry contributes nothing produces a
      `WHERE` with an empty condition, which is not valid SQL; corrected, it
      selects every job. */
  lemma {:induction false} EmptyConditionForLoneInertEntry()
    ensures FindAll(Some([("hasEquity", Bool(false))])) == Statement(WherePrefix, [])
    ensures FindAllCorrected(Some([("hasEquity", Bool(false))])) == Statement(SelectJobs, [])
  {
    var q: Object := [("hasEquity", Bool(false))];
    assert q[1..] == [];
    assert EntryClauses(q, 0) == Where([], []);
    assert RenumberedClauses(q, 0) == Where([], []);
    assert RenderWhere([]) == "";
    assert WherePrefix + "" == WherePrefix;
  }
}
