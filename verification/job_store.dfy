/**
 The row-level operations of the `Job` model (models/job.js): the statement
 `Job.update` sends, and `get`, `update` and `remove` run against an
 abstract jobs table, a map from id to row, standing in for the database.
 */
module JobStore {
  import opened Wrappers
  import opened JsValues
  import opened Text
  import opened Errors
  import opened Sql

  /** The alias map `Job.update` hands to `sqlForPartialUpdate`. */
  const JobAliases: Aliases := map["companyHandle" := "company_handle"]

  /** The columns every job statement returns, `companyHandle` renamed. */
  const Returning: string := "RETURNING id, title, salary, equity, company_handle AS \"companyHandle\""

  /** The update statement: its `SET` text, the placeholder of the id in the
      `WHERE` clause, and the bound parameters. */
  datatype UpdateStatement = UpdateStatement(setCols: string, idIndex: nat, params: seq<Value>)

  /** The statement text, whitespace normalised to single spaces: the `SET`
      clause, the id's placeholder, and the `RETURNING` list. */
  function UpdateSql(u: UpdateStatement): (r: string)
    ensures StartsWith(r, "UPDATE jobs SET " + u.setCols + " WHERE id = $")
    ensures |r| > |Returning| && r[|r| - |Returning|..] == Returning
  {
    StartsWithAppend("UPDATE jobs SET " + u.setCols + " WHERE id = $", NatToString(u.idIndex) + " " + Returning);
    "UPDATE jobs SET " + u.setCols + " WHERE id = $" + NatToString(u.idIndex) + " " + Returning
  }

  /** What `Job.update(id, data)` sends: the id is bound after the values of
      the `SET` clause. Empty data fails in `sqlForPartialUpdate`, before any
      statement exists. */
  function UpdateLayout(id: int, data: Object): (r: Result<UpdateStatement, Error>)
    ensures r.Failure? <==> |data| == 0
    ensures r.Failure? ==> r.error == BadRequest(["No data"])
    ensures r.Success? ==> r.value.idIndex == |data| + 1 == |r.value.params|
    ensures r.Success? ==> r.value.params[|data|] == Int(id)
    ensures r.Success? ==> forall i :: 0 <= i < |data| ==> r.value.params[i] == data[i].1
  {
    match PartialUpdate(data, JobAliases)
    case Failure(e) => Failure(e)
    case Success(clause) =>
      Success(UpdateStatement(clause.setCols, |clause.values| + 1, clause.values + [Int(id)]))
  }

  /** The `WHERE` clause of the text names the last parameter, the id: after
      `WHERE id = $` come exactly the digits of the parameter count. */
  lemma {:induction false} UpdateSqlNamesId(id: int, data: Object)
    requires |data| > 0
    ensures UpdateLayout(id, data).Success?
    ensures var u := UpdateLayout(id, data).value;
      var head := "UPDATE jobs SET " + u.setCols + " WHERE id = $";
      && StartsWith(UpdateSql(u), head)
      && ParseNat(UpdateSql(u)[|head|..]) == Some((|u.params|, " " + Returning))
      && u.params[|u.params| - 1] == Int(id)
  {
    var u := UpdateLayout(id, data).value;
    var head := "UPDATE jobs SET " + u.setCols + " WHERE id = $";
    var rest := " " + Returning;
    var tail := NatToString(u.idIndex) + rest;
    assert UpdateSql(u) == head + tail;
    StartsWithAppend(head, tail);
    assert rest[0] == ' ';
    ParseNatOfNatToString(u.idIndex, rest);
  }

  /** The keys of a job object and the columns they are stored in. */
  predicate JobKey(key: string) {
    key == "title" || key == "salary" || key == "equity" || key == "companyHandle"
  }

  /** The columns that hold a job's fields. */
  predicate KnownColumn(column: string) {
    column == "title" || column == "salary" || column == "equity" || column == "company_handle"
  }

  /** The columns of the jobs table: the id and the fields. */
  predicate TableColumn(column: string) {
    column == "id" || KnownColumn(column)
  }

  /** Data whose every key is a field of a job. */
  predicate JobData(data: seq<(string, Value)>) {
    forall i :: 0 <= i < |data| ==> JobKey(data[i].0)
  }

  /** The `SET` clause and the id placeholder together use every parameter
      exactly once: the assignments hold `$1..$n` in order and the id
      `$<n+1>`, the last parameter, so the id never collides with a value. */
  lemma {:induction false} UpdateIdFollowsSetPlaceholders(id: int, data: Object)
    requires |data| > 0
    requires forall i :: 0 <= i < |data| ==> Quotable(ColumnName(data[i].0, JobAliases))
    ensures UpdateLayout(id, data).Success?
    ensures ParseSetClause(UpdateLayout(id, data).value.setCols).Some?
    ensures |ParseSetClause(UpdateLayout(id, data).value.setCols).value| + 1
         == UpdateLayout(id, data).value.idIndex
    ensures forall i :: 0 <= i < |data| ==>
      ParseSetClause(UpdateLayout(id, data).value.setCols).value[i].placeholder == i + 1
    ensures UpdateLayout(id, data).value.params[UpdateLayout(id, data).value.idIndex - 1] == Int(id)
  {
    PartialUpdateSetCols(data, JobAliases);
  }

  /** A job key's column. */
  lemma JobColumns(data: seq<(string, Value)>)
    requires JobData(data)
    ensures forall i :: 0 <= i < |data| ==> KnownColumn(ColumnName(data[i].0, JobAliases))
    ensures forall i :: 0 <= i < |data| ==> Quotable(ColumnName(data[i].0, JobAliases))
  {
    forall i | 0 <= i < |data|
      ensures KnownColumn(ColumnName(data[i].0, JobAliases))
      ensures Quotable(ColumnName(data[i].0, JobAliases))
    {
      var k := data[i].0;
      if k == "companyHandle" {
        assert ColumnName(k, JobAliases) == "company_handle";
      } else {
        assert ColumnName(k, JobAliases) == k;
      }
    }
  }

  /** Distinct job keys have distinct columns. */
  lemma JobColumnsInjective(a: string, b: string)
    requires JobKey(a) && JobKey(b) && a != b
    ensures ColumnName(a, JobAliases) != ColumnName(b, JobAliases)
  {
    assert ColumnName("companyHandle", JobAliases) == "company_handle";
    assert "title" !in JobAliases && "salary" !in JobAliases && "equity" !in JobAliases;
  }

  /** A row of the jobs table, without its id. */
  datatype Job = Job(title: Value, salary: Value, equity: Value, companyHandle: Value)

  /** The jobs table: each id's row. */
  type Store = map<int, Job>

  /** The row as the statements return it: `{id, title, salary, equity, companyHandle}`. */
  function Row(id: int, job: Job): (r: Object)
    ensures Keys(r) == ["id", "title", "salary", "equity", "companyHandle"]
  {
    [("id", Int(id)), ("title", job.title), ("salary", job.salary), ("equity", job.equity),
     ("companyHandle", job.companyHandle)]
  }

  /** The field a column stores. */
  function Field(job: Job, column: string): Value
    requires KnownColumn(column)
  {
    if column == "title" then job.title
    else if column == "salary" then job.salary
    else if column == "equity" then job.equity
    else job.companyHandle
  }

  function SetField(job: Job, column: string, v: Value): (r: Job)
    requires KnownColumn(column)
    ensures Field(r, column) == v
    ensures forall c :: KnownColumn(c) && c != column ==> Field(r, c) == Field(job, c)
  {
    if column == "title" then job.(title := v)
    else if column == "salary" then job.(salary := v)
    else if column == "equity" then job.(equity := v)
    else job.(companyHandle := v)
  }

  /** No column is assigned twice. */
  predicate DistinctColumns(assignments: seq<Assignment>) {
    forall i, j :: 0 <= i < j < |assignments| ==> assignments[i].column != assignments[j].column
  }

  /** Every assignment names a column of the table and a bound parameter. */
  predicate Applicable(assignments: seq<Assignment>, params: seq<Value>) {
    forall i :: 0 <= i < |assignments| ==>
      TableColumn(assignments[i].column) && 0 < assignments[i].placeholder <= |params|
  }

  /** The fields after the `SET` assignments, applied in order; an assignment
      to `id` changes the row's key, not its fields (see `AssignedId`). */
  function Apply(job: Job, assignments: seq<Assignment>, params: seq<Value>): Job
    requires Applicable(assignments, params)
    decreases |assignments|
  {
    if |assignments| == 0 then job
    else
      var a := assignments[0];
      var next := if a.column == "id" then job else SetField(job, a.column, params[a.placeholder - 1]);
      Apply(next, assignments[1..], params)
  }

  /** The id the row has after the assignments: the value assigned to `id`,
      or the old id when no assignment names it. */
  function AssignedId(assignments: seq<Assignment>, params: seq<Value>, id: int): (r: Value)
    requires Applicable(assignments, params)
    ensures (forall i :: 0 <= i < |assignments| ==> assignments[i].column != "id") ==> r == Int(id)
    ensures DistinctColumns(assignments) ==>
      forall i :: 0 <= i < |assignments| && assignments[i].column == "id" ==> r == params[assignments[i].placeholder - 1]
    decreases |assignments|
  {
    if |assignments| == 0 then Int(id)
    else if assignments[0].column == "id" then params[assignments[0].placeholder - 1]
    else
      var r := AssignedId(assignments[1..], params, id);
      assert forall i :: 1 <= i < |assignments| ==> assignments[1..][i - 1] == assignments[i];
      r
  }

  /** A column no assignment names keeps its value. */
  lemma {:induction false} ApplyUnassigned(job: Job, assignments: seq<Assignment>, params: seq<Value>, column: string)
    requires Applicable(assignments, params) && KnownColumn(column)
    requires forall i :: 0 <= i < |assignments| ==> assignments[i].column != column
    ensures Field(Apply(job, assignments, params), column) == Field(job, column)
    decreases |assignments|
  {
    if |assignments| > 0 {
      var a := assignments[0];
      var next := if a.column == "id" then job else SetField(job, a.column, params[a.placeholder - 1]);
      ApplyUnassigned(next, assignments[1..], params, column);
    }
  }

  /** A column assigned once holds its assignment's parameter. */
  lemma {:induction false} ApplyAssigned(job: Job, assignments: seq<Assignment>, params: seq<Value>, i: nat)
    requires Applicable(assignments, params) && DistinctColumns(assignments)
    requires i < |assignments| && KnownColumn(assignments[i].column)
    ensures Field(Apply(job, assignments, params), assignments[i].column)
         == params[assignments[i].placeholder - 1]
    decreases |assignments|
  {
    var a := assignments[0];
    var next := if a.column == "id" then job else SetField(job, a.column, params[a.placeholder - 1]);
    if i == 0 {
      ApplyUnassigned(next, assignments[1..], params, a.column);
    } else {
      assert assignments[1..][i - 1] == assignments[i];
      ApplyAssigned(next, assignments[1..], params, i - 1);
    }
  }

  /** How the database runs an `UpdateStatement` against the table: a
      malformed or ill-typed statement is an error whether or not the row
      exists; otherwise the row with the bound id, if there is one, gets the
      assignments and comes back, and no row comes back when there is none.
      An assignment to `id` moves the row to the new id, and fails when
      another row already has it. */
  function ExecUpdate(store: Store, u: UpdateStatement): (r: Result<Option<(Store, Object)>, Error>)
    ensures r.Success? ==> 0 < u.idIndex <= |u.params| && u.params[u.idIndex - 1].Int?
    ensures r.Success? ==> (r.value.Some? <==> u.params[u.idIndex - 1].i in store)
    ensures r.Success? && r.value.Some? ==>
      var id := u.params[u.idIndex - 1].i;
      exists k :: MovedRow(store, id, k, r.value.value.0, r.value.value.1)
  {
    match ParseSetClause(u.setCols)
    case None => Failure(DbError("syntax error"))
    case Some(assignments) =>
      if |assignments| == 0 then Failure(DbError("syntax error"))
      else if !Applicable(assignments, u.params) || !(0 < u.idIndex <= |u.params|) then
        Failure(DbError("unknown column or parameter"))
      else if !DistinctColumns(assignments) then Failure(DbError("multiple assignments to same column"))
      else
        match u.params[u.idIndex - 1]
        case Int(id) =>
          if id !in store then Success(None)
          else
            var newId := AssignedId(assignments, u.params, id);
            if !newId.Int? then Failure(DbError("invalid input syntax for type integer"))
            else if newId.i != id && newId.i in store then
              Failure(DbError("duplicate key value violates unique constraint"))
            else
              var k := newId.i;
              var job := Apply(store[id], assignments, u.params);
              var after := (store - {id})[k := job];
              assert MovedRow(store, id, k, after, Row(k, job));
              Success(Some((after, Row(k, job))))
        case _ => Failure(DbError("invalid input syntax for type integer"))
  }

  /** The table `after` is `store` with the row of `id` stored under `k`,
      which is `id` itself or an id no other row had, every other row
      unchanged, and `row` is what is now stored under `k`. */
  predicate MovedRow(store: Store, id: int, k: int, after: Store, row: Object) {
    && (k == id || k !in store)
    && k in after && row == Row(k, after[k])
    && after.Keys == store.Keys - {id} + {k}
    && (forall other :: other in store && other != id ==> other in after && after[other] == store[other])
  }

  function NoJob(id: int): Error {
    NotFound("No job: " + IntToString(id))
  }

  /** `Job.get(id)`: the row, or `NotFound` when there is none. */
  function Get(store: Store, id: int): (r: Result<Object, Error>)
    ensures r.Success? <==> id in store
    ensures r.Failure? ==> r.error == NoJob(id)
    ensures r.Success? ==> r.value == Row(id, store[id])
  {
    if id in store then Success(Row(id, store[id])) else Failure(NoJob(id))
  }

  /** `Job.update(id, data)`: the table afterwards and the returned row.
      Empty data is a `BadRequest` even for a missing id; a missing id
      is `NotFound`; an error of the database passes through. */
  function Update(store: Store, id: int, data: Object): (r: Result<(Store, Object), Error>)
    ensures |data| == 0 ==> r == Failure(BadRequest(["No data"]))
    ensures r.Success? ==> id in store
  {
    match UpdateLayout(id, data)
    case Failure(e) => Failure(e)
    case Success(u) =>
      match ExecUpdate(store, u)
      case Failure(e) => Failure(e)
      case Success(None) => Failure(NoJob(id))
      case Success(Some(result)) =>
        assert u.params[u.idIndex - 1] == Int(id);
        Success(result)
  }

  /** The reference partial update: each field takes the data's value for
      its key when the data has one and keeps its old value otherwise. */
  function Patched(job: Job, data: seq<(string, Value)>): Job {
    Job(ValueOr(data, "title", job.title),
        ValueOr(data, "salary", job.salary),
        ValueOr(data, "equity", job.equity),
        ValueOr(data, "companyHandle", job.companyHandle))
  }

  /** Update with job fields: the named row, and only it, becomes its
      partial update with the data, and comes back; a missing row is
      `NotFound`. */
  lemma {:induction false} UpdateChangesOnlyProvidedFields(store: Store, id: int, data: Object)
    requires |data| > 0 && JobData(data)
    ensures id in store ==>
      Update(store, id, data)
        == Success((store[id := Patched(store[id], data)], Row(id, Patched(store[id], data))))
    ensures id !in store ==> Update(store, id, data) == Failure(NoJob(id))
  {
    var u := UpdateLayout(id, data).value;
    var assignments := Assignments(data, JobAliases);
    JobStatement(id, data);
    if id in store {
      assert AssignedId(assignments, u.params, id) == Int(id);
      ExecFieldUpdateInPlace(store, u, assignments, id);
      PatchedByAssignments(store[id], data, u.params);
    } else {
      ExecUpdateMissing(store, u, assignments, id);
    }
  }

  /** The statement for job-field data is well formed: its `SET` text reads
      back as the data's assignments, each to a distinct field column, and
      the id is its last parameter. */
  lemma {:induction false} JobStatement(id: int, data: Object)
    requires |data| > 0 && JobData(data)
    ensures UpdateLayout(id, data).Success?
    ensures var u := UpdateLayout(id, data).value;
      var assignments := Assignments(data, JobAliases);
      && ParseSetClause(u.setCols) == Some(assignments) && |assignments| > 0
      && Applicable(assignments, u.params) && DistinctColumns(assignments)
      && (forall i :: 0 <= i < |assignments| ==> assignments[i].column != "id")
      && 0 < u.idIndex <= |u.params| && u.params[u.idIndex - 1] == Int(id)
      && |u.params| > |data| && (forall i :: 0 <= i < |data| ==> u.params[i] == data[i].1)
  {
    var u := UpdateLayout(id, data).value;
    var assignments := Assignments(data, JobAliases);
    assert u.setCols == RenderSetClause(assignments);
    JobAssignmentColumns(data);
    ParseRenderedSetClause(assignments);
    JobAssignmentsDistinct(data);
  }

  /** Each assignment for job-field data names a field column, quotable and
      not `id`, and holds placeholder `$<i+1>`. */
  lemma JobAssignmentColumns(data: Object)
    requires JobData(data)
    ensures var assignments := Assignments(data, JobAliases);
      forall i :: 0 <= i < |assignments| ==>
        && KnownColumn(assignments[i].column) && Quotable(assignments[i].column)
        && assignments[i].column != "id" && assignments[i].placeholder == i + 1
  {
    JobColumns(data);
  }

  /** Distinct job fields get distinct columns. */
  lemma JobAssignmentsDistinct(data: Object)
    requires JobData(data)
    ensures DistinctColumns(Assignments(data, JobAliases))
  {
    var assignments := Assignments(data, JobAliases);
    forall i, j | 0 <= i < j < |assignments|
      ensures assignments[i].column != assignments[j].column
    {
      JobColumnsInjective(data[i].0, data[j].0);
    }
  }


  /** A well-formed statement finds no row for a missing id. */
  lemma ExecUpdateMissing(store: Store, u: UpdateStatement, assignments: seq<Assignment>, id: int)
    requires ParseSetClause(u.setCols) == Some(assignments) && |assignments| > 0
    requires Applicable(assignments, u.params) && DistinctColumns(assignments)
    requires 0 < u.idIndex <= |u.params| && u.params[u.idIndex - 1] == Int(id)
    requires id !in store
    ensures ExecUpdate(store, u) == Success(None)
  {
  }

  /** A well-formed statement that keeps the id updates the row in place. */
  lemma ExecFieldUpdateInPlace(store: Store, u: UpdateStatement, assignments: seq<Assignment>, id: int)
    requires ParseSetClause(u.setCols) == Some(assignments) && |assignments| > 0
    requires Applicable(assignments, u.params) && DistinctColumns(assignments)
    requires AssignedId(assignments, u.params, id) == Int(id)
    requires 0 < u.idIndex <= |u.params| && u.params[u.idIndex - 1] == Int(id)
    requires id in store
    ensures ExecUpdate(store, u)
         == Success(Some((store[id := Apply(store[id], assignments, u.params)], Row(id, Apply(store[id], assignments, u.params)))))
  {
    ReplaceInPlace(store, id, Apply(store[id], assignments, u.params));
  }

  lemma ReplaceInPlace(store: Store, id: int, job: Job)
    ensures (store - {id})[id := job] == store[id := job]
  {
  }

  /** Applying the assignments `Job.update` builds has the effect of `Patched`. */
  lemma {:induction false} PatchedByAssignments(job: Job, data: Object, params: seq<Value>)
    requires JobData(data)
    requires |params| > |data|
    requires forall i :: 0 <= i < |data| ==> params[i] == data[i].1
    requires Applicable(Assignments(data, JobAliases), params)
    requires DistinctColumns(Assignments(data, JobAliases))
    ensures Apply(job, Assignments(data, JobAliases), params) == Patched(job, data)
  {
    var assignments := Assignments(data, JobAliases);
    var after := Apply(job, assignments, params);
    PatchedField(job, data, params, "title", "title");
    PatchedField(job, data, params, "salary", "salary");
    PatchedField(job, data, params, "equity", "equity");
    PatchedField(job, data, params, "companyHandle", "company_handle");
    assert ColumnName("companyHandle", JobAliases) == "company_handle";
    assert Field(after, "title") == after.title;
    assert Field(after, "company_handle") == after.companyHandle;
  }

  lemma {:induction false} PatchedField(job: Job, data: Object, params: seq<Value>, key: string, column: string)
    requires JobData(data) && JobKey(key) && KnownColumn(column) && ColumnName(key, JobAliases) == column
    requires |params| > |data|
    requires forall i :: 0 <= i < |data| ==> params[i] == data[i].1
    requires Applicable(Assignments(data, JobAliases), params)
    requires DistinctColumns(Assignments(data, JobAliases))
    ensures Field(Apply(job, Assignments(data, JobAliases), params), column)
         == ValueOr(data, key, Field(job, column))
  {
    var assignments := Assignments(data, JobAliases);
    if i :| 0 <= i < |data| && data[i].0 == key {
      assert Lookup(data, key) == Some(data[i].1);
      ApplyAssigned(job, assignments, params, i);
    } else {
      assert Lookup(data, key) == None;
      forall i | 0 <= i < |assignments|
        ensures assignments[i].column != column
      {
        JobColumnsInjective(data[i].0, key);
      }
      ApplyUnassigned(job, assignments, params, column);
    }
  }

  /** `Job.remove(id)`: the table without the row, or `NotFound`. */
  function Remove(store: Store, id: int): (r: Result<Store, Error>)
    ensures r.Success? <==> id in store
    ensures r.Failure? ==> r.error == NoJob(id)
    ensures r.Success? ==> id !in r.value && forall other :: other in store && other != id ==> other in r.value && r.value[other] == store[other]
    ensures r.Success? ==> r.value.Keys == store.Keys - {id}
  {
    if id in store then Success(store - {id}) else Failure(NoJob(id))
  }

  /** After a removal the row is gone: `get` and `remove` report `NotFound`. */
  lemma RemoveThenGet(store: Store, id: int)
    requires Remove(store, id).Success?
    ensures Get(Remove(store, id).value, id) == Failure(NoJob(id))
    ensures Remove(Remove(store, id).value, id) == Failure(NoJob(id))
  {
  }

  /** After an update, `get` of the id in the returned row returns that row. */
  lemma UpdateThenGet(store: Store, id: int, data: Object)
    ensures Update(store, id, data).Success? ==>
      exists k :: Lookup(Update(store, id, data).value.1, "id") == Some(Int(k))
               && Get(Update(store, id, data).value.0, k) == Success(Update(store, id, data).value.1)
  {
    if Update(store, id, data).Success? {
      var u := UpdateLayout(id, data).value;
      assert u.params[u.idIndex - 1] == Int(id);
      var (after, row) := Update(store, id, data).value;
      var k :| MovedRow(store, id, k, after, row);
      assert row[0] == ("id", Int(k));
    }
  }

  /** `Job.update(id, {id: k})` moves the row to id `k`, unless another row
      already has that id; the fields stay as they were. */
  lemma {:induction false} UpdateId(store: Store, id: int, k: int)
    requires id in store
    ensures k == id || k !in store ==>
      Update(store, id, [("id", Int(k))]) == Success(((store - {id})[k := store[id]], Row(k, store[id])))
    ensures k != id && k in store ==> Update(store, id, [("id", Int(k))]).Failure?
  {
    IdAssignmentLayout(id, k);
    ExecIdUpdate(store, UpdateLayout(id, [("id", Int(k))]).value, id, k);
  }

  /** The database runs `"id"=$1 ... WHERE id = $2` with `[k, id]`. */
  lemma ExecIdUpdate(store: Store, u: UpdateStatement, id: int, k: int)
    requires ParseSetClause(u.setCols) == Some([Assignment("id", 1)])
    requires u.params == [Int(k), Int(id)] && u.idIndex == 2
    requires id in store
    ensures k == id || k !in store ==>
      ExecUpdate(store, u) == Success(Some(((store - {id})[k := store[id]], Row(k, store[id]))))
    ensures k != id && k in store ==> ExecUpdate(store, u).Failure?
  {
    var a := Assignment("id", 1);
    assert AssignedId([a], u.params, id) == Int(k);
    assert Apply(store[id], [a], u.params) == store[id];
  }

  /** The statement for `{id: k}`: the one assignment `"id"=$1`, then the id. */
  lemma IdAssignmentLayout(id: int, k: int)
    ensures UpdateLayout(id, [("id", Int(k))]).Success?
    ensures UpdateLayout(id, [("id", Int(k))]).value.params == [Int(k), Int(id)]
    ensures UpdateLayout(id, [("id", Int(k))]).value.idIndex == 2
    ensures ParseSetClause(UpdateLayout(id, [("id", Int(k))]).value.setCols) == Some([Assignment("id", 1)])
  {
    var data: Object := [("id", Int(k))];
    assert ColumnName("id", JobAliases) == "id";
    assert Assignments(data, JobAliases) == [Assignment("id", 1)];
    ParseRenderedSetClause([Assignment("id", 1)]);
  }

  /** `Job.update(1111, {salary: 50000})` on the row `J1` of company `c1`
      returns the row with the new salary and nothing else changed. */
  lemma {:induction false} UpdateSalaryExample(store: Store)
    requires 1111 in store && store[1111] == Job(Str("J1"), Null, Null, Str("c1"))
    ensures Update(store, 1111, [("salary", Int(50000))])
         == Success((store[1111 := Job(Str("J1"), Int(50000), Null, Str("c1"))],
                     Row(1111, Job(Str("J1"), Int(50000), Null, Str("c1")))))
  {
    UpdateSalary(store, 1111);
  }

  /** `Job.update(id, {salary: 50000})` changes only the salary. */
  lemma {:induction false} UpdateSalary(store: Store, id: int)
    requires id in store
    ensures Update(store, id, [("salary", Int(50000))])
         == Success((store[id := store[id].(salary := Int(50000))], Row(id, store[id].(salary := Int(50000)))))
  {
    var data: Object := [("salary", Int(50000))];
    assert JobKey(data[0].0);
    UpdateChangesOnlyProvidedFields(store, id, data);
    SalaryPatch(store[id]);
  }

  lemma SalaryPatch(job: Job)
    ensures Patched(job, [("salary", Int(50000))]) == job.(salary := Int(50000))
  {
    var data := [("salary", Int(50000))];
    assert Lookup(data, "salary") == Some(Int(50000));
    assert Lookup(data, "title") == None && Lookup(data, "equity") == None;
    assert Lookup(data, "companyHandle") == None;
  }

  /** `Job.update(0, {salary: 50000})` on a table without row 0 is `NotFound`. */
  lemma {:induction false} UpdateMissingExample(store: Store)
    requires 0 !in store
    ensures Update(store, 0, [("salary", Int(50000))]) == Failure(NotFound("No job: 0"))
  {
    var data: Object := [("salary", Int(50000))];
    assert JobData(data);
    UpdateChangesOnlyProvidedFields(store, 0, data);
    NoJobZero();
  }

  /** The message for the missing id 0. */
  lemma NoJobZero()
    ensures NoJob(0) == NotFound("No job: 0")
  {
    assert IntToString(0) == "0";
  }
}
