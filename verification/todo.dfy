/** The Todo routes (routes/todo.js): six handlers over one shared `todos`
    table that is written back to its file after every successful change. */
module TodoRoutes {
  import opened Values
  import opened Utils
  import opened Table

  /** The JSON body of a POST or PUT request; a field the client left out
      is `Undefined`. */
  datatype Payload = Payload(title: Value, description: Value, status: Value)

  /** What a handler sends back: a message object, one Todo, or a list. */
  datatype Body = Detail(message: string) | One(todo: Record) | Many(todos: seq<Record>)

  datatype Response = Response(status: int, body: Body)

  const TitleRequired: Response := Response(422, Detail("title is required"))
  const NotFound: Response := Response(404, Detail("Todo not found"))
  const Deleted: Response := Response(200, Detail("Todo deleted"))

  /** `toObj`: no record (null) when there is no result, no result set or
      no value row; otherwise the first row zipped with the columns. */
  method ToObj(rows: Option<seq<ResultSet>>) returns (obj: Option<Record>)
    ensures obj.None? <==> rows.None? || rows.value == [] || rows.value[0].values == []
    ensures obj.Some? ==> obj.value == RowRecord(rows.value[0].columns, rows.value[0].values[0])
  {
    if rows.None? || rows.value == [] || rows.value[0].values == [] {
      return None;
    }
    var cols := rows.value[0].columns;
    var vals := rows.value[0].values[0];
    var o := ZipRow(cols, vals);
    obj := Some(o);
  }

  /** A stored row read back with `SELECT *` and zipped with its columns is
      the row's record, and formatting that record changes nothing. */
  lemma FormattedRow(t: Todo)
    ensures RowRecord(Columns, RowValues(t)) == AsRecord(t)
    ensures FormatTodo(RowRecord(Columns, RowValues(t))) == AsRecord(t)
  {
    var vals := RowValues(t);
    var r := RowRecord(Columns, vals);
    RowRecordKeys(Columns, vals);
    assert r.Keys == AsRecord(t).Keys;
    RowRecordLastWins(Columns, vals, 0);
    RowRecordLastWins(Columns, vals, 1);
    RowRecordLastWins(Columns, vals, 2);
    RowRecordLastWins(Columns, vals, 3);
    FormatTodoFixes(AsRecord(t));
  }

  /** Reading an existing id back with `SELECT * ... WHERE id = ?` and
      `toObj` gives the record of the row `Lookup` finds. */
  lemma ReadRow(t: seq<Todo>, id: int)
    requires Lookup(t, id).Some?
    ensures var rows, x := Exec(WithId(t, id)), Lookup(t, id).value;
      && |rows| == 1 && |rows[0].values| >= 1
      && RowRecord(rows[0].columns, rows[0].values[0]) == AsRecord(x)
      && FormatTodo(AsRecord(x)) == AsRecord(x)
  {
    FormattedRow(Lookup(t, id).value);
  }

  /** `toObj(db.exec("SELECT * FROM todos WHERE id = ?", [id]))`: no
      record exactly when no row has the id, otherwise the record of the row
      `Lookup` finds, which formatting leaves as it is. */
  method SelectById(t: seq<Todo>, id: int) returns (obj: Option<Record>)
    ensures obj.None? <==> forall x :: x in t ==> x.id != id
    ensures obj.Some? ==> obj.value == AsRecord(Lookup(t, id).value)
    ensures obj.Some? ==> FormatTodo(obj.value) == obj.value
  {
    var rows := Exec(WithId(t, id));
    obj := ToObj(Some(rows));
    WithIdEmpty(t, id);
    if obj.Some? {
      ReadRow(t, id);
    }
  }

  /** `formatTodos(toArray(db.exec(sql)))` for a `SELECT *` whose matching
      rows are `rows`: exactly the records of those rows, in order. */
  method SelectRows(rows: seq<Todo>) returns (out: seq<Record>)
    ensures out == Records(rows)
  {
    var results := Exec(rows);
    var x := ToArray(Some(results));
    out := FormatTodos(x);
    forall i | 0 <= i < |rows|
      ensures out[i] == AsRecord(rows[i])
    {
      FormattedRow(rows[i]);
    }
  }

  /** `parseInt(p) || d` for a parameter that is missing (`None`, which
      parses to NaN) or parses to a non-negative integer: NaN and 0 are both
      falsy, so either gives the default. */
  function OrDefaultCount(p: Option<nat>, d: nat): nat
  {
    if p.None? || p.value == 0 then d else p.value
  }

  /** `req.query.q || ""`. */
  function QueryText(q: Option<string>): string
  {
    if q.None? then "" else q.value
  }

  /** A row the handlers can have written: a title that is a string or a
      number (create rejects null and undefined, update keeps the old title
      for them) and a description and status that are never undefined. */
  predicate Storable(x: Todo)
  {
    (x.title.Text? || x.title.Int?) && x.description != Undefined && x.status != Undefined
  }

  /** Ids are unique, positive and below the next id to hand out, and every
      row is storable. */
  ghost predicate ValidTable(t: seq<Todo>, nextId: int)
  {
    && nextId >= 1
    && UniqueIds(t)
    && forall x :: x in t ==> 1 <= x.id < nextId && Storable(x)
  }

  /** Rewriting the fields of an existing row with storable values keeps
      the table valid. */
  lemma SetKeepsValid(t: seq<Todo>, nextId: int, id: int, title: Value, description: Value, status: Value)
    requires ValidTable(t, nextId) && Lookup(t, id).Some?
    requires Storable(Todo(id, title, description, status))
    ensures ValidTable(SetWhere(t, id, title, description, status), nextId)
  {
    var u := SetWhere(t, id, title, description, status);
    forall i | 0 <= i < |u|
      ensures u[i].id == t[i].id && (u[i] == t[i] || u[i] == Todo(id, title, description, status))
    {
      SetWhereAt(t, id, title, description, status, i);
    }
    forall x | x in u
      ensures 1 <= x.id < nextId && Storable(x)
    {
      var i :| 0 <= i < |u| && u[i] == x;
      assert t[i] in t;
    }
  }

  /** Removing a row keeps the table valid. */
  lemma DeleteKeepsValid(t: seq<Todo>, nextId: int, k: int)
    requires ValidTable(t, nextId) && 0 <= k < |t|
    ensures ValidTable(DeleteWhere(t, t[k].id), nextId)
  {
    DeleteAt(t, k);
    UniqueRemove(t, k);
  }

  /** The persisted Todo store: the in-memory `todos` table, the next id the
      engine hands out, and the snapshot last written to the backing file. */
  class TodoStore {
    var table: seq<Todo>
    var nextId: int
    var disk: seq<Todo>

    ghost predicate Valid()
      reads this
    {
      ValidTable(table, nextId)
    }

    /** A freshly created, empty database (the file did not exist). */
    constructor ()
      ensures Valid()
      ensures table == [] && disk == [] && nextId == 1
    {
      table := [];
      nextId := 1;
      disk := [];
    }

    /** `saveDb()`: overwrite the file with the current table. */
    method Save()
      modifies this`disk
      ensures disk == table
    {
      disk := table;
    }

    /** POST /todos. */
    method Create(p: Payload) returns (res: Response)
      requires Valid()
      modifies this
      ensures Valid()
      ensures Falsy(p.title) ==>
        res == TitleRequired && table == old(table) && nextId == old(nextId) && disk == old(disk)
      ensures !Falsy(p.title) ==>
        var t := Todo(old(nextId), p.title, OrDefault(p.description, Null), OrDefault(p.status, Text("pending")));
        && (forall x :: x in old(table) ==> x.id != t.id)
        && table == old(table) + [t]
        && nextId == old(nextId) + 1
        && disk == table
        && res == Response(201, One(AsRecord(t)))
    {
      var description := OrDefault(p.description, Null);
      var status := OrDefault(p.status, Text("pending"));
      if Falsy(p.title) {
        return TitleRequired;
      }
      var t := Todo(nextId, p.title, description, status);
      table := table + [t];
      nextId := nextId + 1;
      WithIdAppendFresh(old(table), t);
      var todo := SelectById(table, t.id);
      Save();
      res := Response(201, One(FormatTodo(todo.value)));
    }

    /** GET /todos?skip=&limit=: the rows from position `skip` on, at most
      `limit` of them, where a missing, unparsable or zero `skip` is 0 and a
      missing, unparsable or zero `limit` is 10. Nothing is written. */
    method List(skipParam: Option<nat>, limitParam: Option<nat>) returns (res: Response)
      ensures res.status == 200 && res.body.Many?
      ensures var skip, limit := OrDefaultCount(skipParam, 0), OrDefaultCount(limitParam, 10);
        && |res.body.todos| <= limit
        && (skip <= |table| ==> |res.body.todos| == Min(limit, |table| - skip))
        && forall i :: 0 <= i < |res.body.todos| ==>
             skip + i < |table| && res.body.todos[i] == AsRecord(table[skip + i])
    {
      var skip := OrDefaultCount(skipParam, 0);
      var limit := OrDefaultCount(limitParam, 10);
      var page := Page(table, limit, skip);
      var out := SelectRows(page);
      res := Response(200, Many(out));
    }

    /** GET /todos/:id: 404 exactly when no row has the id, otherwise that
      row. Nothing is written. The handler's test for an empty select
      result is the case in which `toObj` gives null. */
    method Get(id: int) returns (res: Response)
      ensures Lookup(table, id).None? ==> res == NotFound
      ensures Lookup(table, id).Some? ==> res == Response(200, One(AsRecord(Lookup(table, id).value)))
    {
      var obj := SelectById(table, id);
      if obj.None? {
        return NotFound;
      }
      res := Response(200, One(FormatTodo(obj.value)));
    }

    /** PUT /todos/:id: 404 and no change for an unknown id; otherwise each
      field takes the request's value unless that is null or undefined, the
      row is rewritten in place, the file is saved and the row is returned.
      The handler's test for an empty select result is the case in which
      `toObj` gives null, so both reads go through `SelectById`. */
    method Update(id: int, p: Payload) returns (res: Response)
      requires Valid()
      modifies this
      ensures Valid()
      ensures nextId == old(nextId)
      ensures Lookup(old(table), id).None? ==>
        res == NotFound && table == old(table) && disk == old(disk)
      ensures Lookup(old(table), id).Some? ==>
        var cur := Lookup(old(table), id).value;
        var t := Todo(id, Coalesce(p.title, cur.title), Coalesce(p.description, cur.description),
                      Coalesce(p.status, cur.status));
        && table == SetWhere(old(table), id, t.title, t.description, t.status)
        && disk == table
        && res == Response(200, One(AsRecord(t)))
    {
      var oldObj := SelectById(table, id);
      if oldObj.None? {
        return NotFound;
      }
      ghost var before := table;
      ghost var cur := Lookup(before, id).value;
      var title := Coalesce(p.title, Values.Get(oldObj.value, "title"));
      var description := Coalesce(p.description, Values.Get(oldObj.value, "description"));
      var status := Coalesce(p.status, Values.Get(oldObj.value, "status"));
      assert ValidTable(SetWhere(before, id, title, description, status), nextId) by {
        assert cur in before;
        SetKeepsValid(before, nextId, id, title, description, status);
      }
      table := SetWhere(table, id, title, description, status);
      var todo := SelectById(table, id);
      LookupAfterSet(before, id, title, description, status);
      Save();
      res := Response(200, One(FormatTodo(todo.value)));
    }

    /** DELETE /todos/:id: 404 and no change for an unknown id; otherwise the
      row goes, the file is saved and a confirmation is returned. */
    method Delete(id: int) returns (res: Response)
      requires Valid()
      modifies this
      ensures Valid()
      ensures nextId == old(nextId)
      ensures Lookup(old(table), id).None? ==>
        res == NotFound && table == old(table) && disk == old(disk)
      ensures Lookup(old(table), id).Some? ==>
        table == DeleteWhere(old(table), id) && disk == table && res == Deleted
    {
      var existing := Exec(WithId(table, id));
      if |existing| == 0 || |existing[0].values| == 0 {
        return NotFound;
      }
      ghost var before := table;
      ghost var k :| 0 <= k < |before| && before[k] == WithId(before, id)[0];
      table := DeleteWhere(table, id);
      DeleteKeepsValid(before, nextId, k);
      Save();
      res := Deleted;
    }

    /** GET /todos/search/all?q=: the rows whose title contains `q`, ignoring
      ASCII case, in storage order; a missing or empty `q` gives every row.
      Nothing is written. */
    method Search(q: Option<string>) returns (res: Response)
      requires Valid()
      ensures res.status == 200
      ensures res.body == Many(Records(TitleLike(table, QueryText(q))))
      ensures QueryText(q) == "" ==> res.body == Many(Records(table))
    {
      var text := QueryText(q);
      var found := TitleLike(table, text);
      var out := SelectRows(found);
      res := Response(200, Many(out));
      if text == "" {
        TitleLikeEmpty(table);
      }
    }
  }

  /** The search query of the functional tests matches the title they create. */
  lemma TitleMatchesApprendre()
    ensures TitleMatches(Text("Apprendre Jest"), "apprendre")
  {
    var t := Lower("Apprendre Jest");
    assert t[..9] == "apprendre";
    assert Lower("apprendre") == "apprendre";
  }

  /** The lifecycle the API's functional tests walk through: create with a
      title and a description, find it by a lower-case search, mark it done,
      delete it, and look it up again. */
  method Scenario() returns (created: Response, found: Response, updated: Response, deleted: Response, final: Response)
    ensures created == Response(201, One(AsRecord(
      Todo(1, Text("Apprendre Jest"), Text("Faire des tests fonctionnels"), Text("pending")))))
    ensures found == Response(200, Many([AsRecord(
      Todo(1, Text("Apprendre Jest"), Text("Faire des tests fonctionnels"), Text("pending")))]))
    ensures updated == Response(200, One(AsRecord(
      Todo(1, Text("Apprendre Jest"), Text("Faire des tests fonctionnels"), Text("done")))))
    ensures deleted == Deleted
    ensures final == NotFound
  {
    var store := new TodoStore();
    var row := Todo(1, Text("Apprendre Jest"), Text("Faire des tests fonctionnels"), Text("pending"));
    created := store.Create(Payload(Text("Apprendre Jest"), Text("Faire des tests fonctionnels"), Undefined));
    assert store.table == [row];
    found := store.Search(Some("apprendre"));
    TitleMatchesApprendre();
    TitleLikeSingle(row, "apprendre");
    assert Records([row]) == [AsRecord(row)];
    updated := store.Update(1, Payload(Undefined, Undefined, Text("done")));
    deleted := store.Delete(1);
    final := store.Get(1);
    LookupAfterDelete([row.(status := Text("done"))], 1);
  }
}
