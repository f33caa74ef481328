/** Result shaping (routes/utils.js): sql.js results to records, and records
    to the four public fields of a Todo. */
module Utils {
  import opened Values

  /** The record `cols.forEach((c, i) => (obj[c] = vals[i]))` leaves in an
      empty `obj`: the columns are assigned in order, so a repeated column
      name keeps the value of its last position. */
  function RowRecord(cols: seq<string>, vals: seq<Value>): Record
    decreases |cols|
  {
    if cols == [] then map[]
    else RowRecord(cols[..|cols| - 1], vals)[cols[|cols| - 1] := At(vals, |cols| - 1)]
  }

  /** The record has one key per distinct column name and no other key. */
  lemma {:induction false} RowRecordKeys(cols: seq<string>, vals: seq<Value>)
    ensures RowRecord(cols, vals).Keys == set c | c in cols
    decreases |cols|
  {
    if cols != [] {
      var init := cols[..|cols| - 1];
      RowRecordKeys(init, vals);
      assert cols == init + [cols[|cols| - 1]];
    }
  }

  /** Key `cols[i]` holds `vals[i]` when no later column has the same name. */
  lemma {:induction false} RowRecordLastWins(cols: seq<string>, vals: seq<Value>, i: int)
    requires 0 <= i < |cols|
    requires forall j :: i < j < |cols| ==> cols[j] != cols[i]
    ensures cols[i] in RowRecord(cols, vals)
    ensures RowRecord(cols, vals)[cols[i]] == At(vals, i)
    decreases |cols|
  {
    if i < |cols| - 1 {
      var init := cols[..|cols| - 1];
      RowRecordLastWins(init, vals, i);
    }
  }

  /** The `forEach` that fills one record (routes/utils.js:13-14, and the
      same loop in `toObj`). */
  method ZipRow(cols: seq<string>, vals: seq<Value>) returns (obj: Record)
    ensures obj == RowRecord(cols, vals)
    ensures obj.Keys == set c | c in cols
  {
    obj := map[];
    var i := 0;
    while i < |cols|
      invariant 0 <= i <= |cols|
      invariant obj == RowRecord(cols[..i], vals)
    {
      assert cols[..i + 1][..i] == cols[..i];
      obj := obj[cols[i] := At(vals, i)];
      i := i + 1;
    }
    assert cols[..|cols|] == cols;
    RowRecordKeys(cols, vals);
  }

  /** `toArray`: no result (null) or an empty result gives no record;
      otherwise one record per value row of the FIRST result set, in order,
      and later result sets are ignored. */
  method ToArray(rows: Option<seq<ResultSet>>) returns (records: seq<Record>)
    ensures rows.None? || rows.value == [] ==> records == []
    ensures rows.Some? && rows.value != [] ==>
      && |records| == |rows.value[0].values|
      && forall k :: 0 <= k < |records| ==>
           records[k] == RowRecord(rows.value[0].columns, rows.value[0].values[k])
  {
    if rows.None? || rows.value == [] {
      return [];
    }
    var cols := rows.value[0].columns;
    var values := rows.value[0].values;
    records := [];
    var k := 0;
    while k < |values|
      invariant 0 <= k <= |values|
      invariant |records| == k
      invariant forall j :: 0 <= j < k ==> records[j] == RowRecord(cols, values[j])
    {
      var obj := ZipRow(cols, values[k]);
      records := records + [obj];
      k := k + 1;
    }
  }

  /** The four fields a Todo exposes. */
  const PublicFields: set<string> := {"id", "title", "description", "status"}

  /** `formatTodo`: exactly the four public keys, each read from the input
      (a missing one reads as `undefined`); every other key is dropped. */
  function FormatTodo(todo: Record): (r: Record)
    ensures r.Keys == PublicFields
    ensures forall k :: k in r ==> r[k] == Get(todo, k)
  {
    map["id" := Get(todo, "id"), "title" := Get(todo, "title"),
        "description" := Get(todo, "description"), "status" := Get(todo, "status")]
  }

  /** Formatting an already formatted Todo changes nothing. */
  lemma FormatTodoIdempotent(todo: Record)
    ensures FormatTodo(FormatTodo(todo)) == FormatTodo(todo)
  {
  }

  /** A record that already has exactly the public keys is its own format. */
  lemma FormatTodoFixes(todo: Record)
    requires todo.Keys == PublicFields
    ensures FormatTodo(todo) == todo
  {
  }

  /** `formatTodos`: a new list, one formatted record per input record, in
      order; the input list itself is a value and is left as it was. */
  method FormatTodos(todos: seq<Record>) returns (out: seq<Record>)
    ensures |out| == |todos|
    ensures forall i :: 0 <= i < |todos| ==> out[i] == FormatTodo(todos[i])
  {
    out := [];
    var i := 0;
    while i < |todos|
      invariant 0 <= i <= |todos|
      invariant |out| == i
      invariant forall j :: 0 <= j < i ==> out[j] == FormatTodo(todos[j])
    {
      var data: Record := map[];
      data := data["id" := Get(todos[i], "id")];
      data := data["title" := Get(todos[i], "title")];
      data := data["description" := Get(todos[i], "description")];
      data := data["status" := Get(todos[i], "status")];
      assert data == FormatTodo(todos[i]);
      out := out + [data];
      i := i + 1;
    }
  }
}
