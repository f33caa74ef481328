/** The `todos` table and the statements the routes run against it. The
    embedded SQL engine is not modelled; each statement becomes a function on
    the table's rows, kept in storage order. */
module Table {
  import opened Values

  /** One stored row of `todos (id, title, description, status)`. */
  datatype Todo = Todo(id: int, title: Value, description: Value, status: Value)

  /** The columns `SELECT *` returns, in table order. */
  const Columns: seq<string> := ["id", "title", "description", "status"]

  function RowValues(t: Todo): seq<Value>
  {
    [Int(t.id), t.title, t.description, t.status]
  }

  /** A row as the object the routes build from it. */
  function AsRecord(t: Todo): Record
  {
    map["id" := Int(t.id), "title" := t.title, "description" := t.description, "status" := t.status]
  }

  function Records(rows: seq<Todo>): (r: seq<Record>)
    ensures |r| == |rows|
  {
    seq(|rows|, i requires 0 <= i < |rows| => AsRecord(rows[i]))
  }

  /** What sql.js `exec` returns for a `SELECT *`: no result set at all when
      no row matched, otherwise one result set holding the rows. */
  function Exec(rows: seq<Todo>): (r: seq<ResultSet>)
    ensures r == [] <==> rows == []
    ensures r != [] ==> |r| == 1 && r[0].columns == Columns && |r[0].values| == |rows|
    ensures r != [] ==> forall k :: 0 <= k < |rows| ==> r[0].values[k] == RowValues(rows[k])
  {
    if rows == [] then []
    else [ResultSet(Columns, seq(|rows|, k requires 0 <= k < |rows| => RowValues(rows[k])))]
  }

  /** No two rows share an id (the table's primary key). */
  ghost predicate UniqueIds(t: seq<Todo>)
  {
    forall i, j :: 0 <= i < j < |t| ==> t[i].id != t[j].id
  }

  /** `SELECT * FROM todos WHERE id = ?`: the rows with that id, in order. */
  function WithId(t: seq<Todo>, id: int): (r: seq<Todo>)
    ensures forall x :: x in r ==> x in t && x.id == id
    ensures |r| <= |t|
  {
    if t == [] then []
    else (if t[0].id == id then [t[0]] else []) + WithId(t[1..], id)
  }

  /** The select finds nothing exactly when no row has the id. */
  lemma {:induction false} WithIdEmpty(t: seq<Todo>, id: int)
    ensures WithId(t, id) == [] <==> forall x :: x in t ==> x.id != id
  {
    if t != [] {
      WithIdEmpty(t[1..], id);
      assert forall x :: x in t ==> x == t[0] || x in t[1..];
    }
  }

  /** The first row with that id, if any: what `toObj` reads off the
      `SELECT ... WHERE id = ?` result. */
  function Lookup(t: seq<Todo>, id: int): (r: Option<Todo>)
    ensures r.None? <==> forall x :: x in t ==> x.id != id
    ensures r.Some? ==> r.value in t && r.value.id == id
  {
    WithIdEmpty(t, id);
    var m := WithId(t, id);
    if m == [] then None
    else
      assert m[0] in m;
      Some(m[0])
  }

  /** `UPDATE todos SET title = ?, description = ?, status = ? WHERE id = ?`. */
  function SetWhere(t: seq<Todo>, id: int, title: Value, description: Value, status: Value): (r: seq<Todo>)
    ensures |r| == |t|
  {
    if t == [] then []
    else
      [if t[0].id == id then Todo(id, title, description, status) else t[0]]
      + SetWhere(t[1..], id, title, description, status)
  }

  /** `DELETE FROM todos WHERE id = ?`: every row with that id goes, every
      other row stays. */
  function DeleteWhere(t: seq<Todo>, id: int): (r: seq<Todo>)
    ensures forall x :: x in r <==> x in t && x.id != id
    ensures |r| <= |t|
  {
    if t == [] then []
    else (if t[0].id == id then [] else [t[0]]) + DeleteWhere(t[1..], id)
  }

  function Min(a: int, b: int): int
  {
    if a <= b then a else b
  }

  /** `SELECT * FROM todos LIMIT ? OFFSET ?` for a non-negative limit and
      offset: at most `limit` rows, starting at position `skip`. */
  function Page(t: seq<Todo>, limit: nat, skip: nat): (r: seq<Todo>)
    ensures |r| <= limit
    ensures skip <= |t| ==> |r| == Min(limit, |t| - skip)
    ensures skip >= |t| ==> r == []
    ensures forall i :: 0 <= i < |r| ==> skip + i < |t| && r[i] == t[skip + i]
  {
    if skip >= |t| then [] else t[skip..skip + Min(limit, |t| - skip)]
  }

  /** ASCII lower-casing, the case folding SQLite's LIKE applies. */
  function LowerChar(c: char): char
  {
    if 'A' <= c <= 'Z' then (c as int + 32) as char else c
  }

  function Lower(s: string): (r: string)
    ensures |r| == |s|
  {
    seq(|s|, i requires 0 <= i < |s| => LowerChar(s[i]))
  }

  function DigitChar(d: nat): char
    requires d < 10
  {
    "0123456789"[d]
  }

  function Digits(n: nat): string
    decreases n
  {
    if n < 10 then [DigitChar(n)] else Digits(n / 10) + [DigitChar(n % 10)]
  }

  /** The text SQLite compares when LIKE meets a column value: a string as it
      is, an integer in decimal, and none for NULL. */
  function LikeText(v: Value): Option<string>
  {
    match v
    case Text(s) => Some(s)
    case Int(n) => Some(if n < 0 then "-" + Digits(-n) else Digits(n))
    case _ => None
  }

  /** `sub` occurs in `s` starting at position `i`. */
  predicate OccursAt(s: string, sub: string, i: int)
  {
    0 <= i && i + |sub| <= |s| && s[i..i + |sub|] == sub
  }

  /** Substring test, scanning `s` from the left. */
  function Contains(s: string, sub: string): bool
    decreases |s|
  {
    if |sub| > |s| then false
    else if s[..|sub|] == sub then true
    else Contains(s[1..], sub)
  }

  /** An occurrence at position `i >= 1` is an occurrence in the tail at `i - 1`. */
  lemma OccursShift(s: string, sub: string, i: int)
    requires |s| >= 1 && i >= 1
    ensures OccursAt(s, sub, i) <==> OccursAt(s[1..], sub, i - 1)
  {
    if i + |sub| <= |s| {
      assert s[1..][i - 1..i - 1 + |sub|] == s[i..i + |sub|];
    }
  }

  /** `Contains` holds exactly when `sub` occurs somewhere in `s`. */
  lemma {:induction false} ContainsIff(s: string, sub: string)
    ensures Contains(s, sub) <==> exists i :: OccursAt(s, sub, i)
    decreases |s|
  {
    if |sub| > |s| {
    } else if s[..|sub|] == sub {
      assert OccursAt(s, sub, 0);
    } else {
      forall i | OccursAt(s, sub, i)
        ensures OccursAt(s[1..], sub, i - 1)
      {
        assert i != 0;
        OccursShift(s, sub, i);
      }
      forall i | OccursAt(s[1..], sub, i)
        ensures OccursAt(s, sub, i + 1)
      {
        OccursShift(s, sub, i + 1);
      }
      ContainsIff(s[1..], sub);
    }
  }

  /** `title LIKE '%q%'` without wildcards inside `q`: an ASCII
      case-insensitive substring match. */
  predicate TitleMatches(title: Value, q: string)
  {
    LikeText(title).Some? && Contains(Lower(LikeText(title).value), Lower(q))
  }

  /** `SELECT * FROM todos WHERE title LIKE ?` with pattern `%q%`: the
      matching rows, in storage order. */
  function TitleLike(t: seq<Todo>, q: string): (r: seq<Todo>)
    ensures forall x :: x in r <==> x in t && TitleMatches(x.title, q)
    ensures |r| <= |t|
  {
    if t == [] then []
    else (if TitleMatches(t[0].title, q) then [t[0]] else []) + TitleLike(t[1..], q)
  }

  /** The empty query matches every title that has a text form. */
  lemma {:induction false} TitleLikeEmpty(t: seq<Todo>)
    requires forall x :: x in t ==> LikeText(x.title).Some?
    ensures TitleLike(t, "") == t
  {
    if t != [] {
      assert t[0] in t;
      assert Contains(Lower(LikeText(t[0].title).value), Lower(""));
      TitleLikeEmpty(t[1..]);
      assert t == [t[0]] + t[1..];
    }
  }

  /** The search keeps storage order: searching two parts of a table gives
      the two answers joined. With `TitleLikeSingle` this fixes the result
      row by row, each matching row once and in place. */
  lemma {:induction false} TitleLikeAppend(t: seq<Todo>, u: seq<Todo>, q: string)
    ensures TitleLike(t + u, q) == TitleLike(t, q) + TitleLike(u, q)
  {
    if t == [] {
      assert t + u == u;
    } else {
      assert (t + u)[1..] == t[1..] + u;
      TitleLikeAppend(t[1..], u, q);
    }
  }

  /** A single row is kept exactly when its title matches. */
  lemma TitleLikeSingle(x: Todo, q: string)
    ensures TitleLike([x], q) == if TitleMatches(x.title, q) then [x] else []
  {
    assert [x][1..] == [];
  }

  /** `WHERE id = ?` over two parts of a table is the two answers joined. */
  lemma {:induction false} WithIdAppend(t: seq<Todo>, u: seq<Todo>, id: int)
    ensures WithId(t + u, id) == WithId(t, id) + WithId(u, id)
  {
    if t == [] {
      assert t + u == u;
    } else {
      var head := if t[0].id == id then [t[0]] else [];
      assert (t + u)[1..] == t[1..] + u;
      calc {
        WithId(t + u, id);
        head + WithId(t[1..] + u, id);
        { WithIdAppend(t[1..], u, id); }
        head + (WithId(t[1..], id) + WithId(u, id));
        (head + WithId(t[1..], id)) + WithId(u, id);
      }
    }
  }

  /** A row appended under an id no other row has is what a lookup of that
      id finds, alone. */
  lemma WithIdAppendFresh(t: seq<Todo>, x: Todo)
    requires forall r :: r in t ==> r.id != x.id
    ensures WithId(t + [x], x.id) == [x]
    ensures Lookup(t + [x], x.id) == Some(x)
  {
    WithIdAppend(t, [x], x.id);
    WithIdEmpty(t, x.id);
    assert WithId([x], x.id) == [x] + WithId([], x.id);
  }

  /** With unique ids, the row at position `k` is the only row with its id. */
  lemma {:induction false} WithIdUnique(t: seq<Todo>, k: int)
    requires UniqueIds(t) && 0 <= k < |t|
    ensures WithId(t, t[k].id) == [t[k]]
  {
    if k == 0 {
      assert forall x :: x in t[1..] ==> x.id != t[0].id;
      WithIdEmpty(t[1..], t[0].id);
    } else {
      assert UniqueIds(t[1..]);
      WithIdUnique(t[1..], k - 1);
    }
  }

  /** Deleting from two parts of a table deletes from each part. */
  lemma {:induction false} DeleteAppend(t: seq<Todo>, u: seq<Todo>, id: int)
    ensures DeleteWhere(t + u, id) == DeleteWhere(t, id) + DeleteWhere(u, id)
  {
    if t == [] {
      assert t + u == u;
    } else {
      assert (t + u)[1..] == t[1..] + u;
      DeleteAppend(t[1..], u, id);
    }
  }

  /** A table is the rows before `k`, row `k`, and the rows after it. */
  lemma SplitAt(t: seq<Todo>, k: int)
    requires 0 <= k < |t|
    ensures t == t[..k] + ([t[k]] + t[k + 1..])
  {
  }

  /** Deleting the id of one row, when no row around it has that id,
      removes that row and nothing else. */
  lemma DeleteSplit(front: seq<Todo>, x: Todo, back: seq<Todo>)
    requires forall j :: 0 <= j < |front| ==> front[j].id != x.id
    requires forall j :: 0 <= j < |back| ==> back[j].id != x.id
    ensures DeleteWhere(front + ([x] + back), x.id) == front + back
  {
    var id, mid := x.id, [x] + back;
    DeleteNone(front, id);
    DeleteNone(back, id);
    assert DeleteWhere([x], id) == [] by {
      assert [x][1..] == [];
    }
    DeleteAppend([x], back, id);
    assert DeleteWhere(mid, id) == back;
    DeleteAppend(front, mid, id);
  }

  /** With unique ids, deleting the id of row `k` removes exactly that row,
      and keeps the others in order. */
  lemma DeleteAt(t: seq<Todo>, k: int)
    requires UniqueIds(t) && 0 <= k < |t|
    ensures DeleteWhere(t, t[k].id) == t[..k] + t[k + 1..]
  {
    var front, back := t[..k], t[k + 1..];
    forall j | 0 <= j < |front|
      ensures front[j].id != t[k].id
    {
      assert front[j] == t[j];
    }
    forall j | 0 <= j < |back|
      ensures back[j].id != t[k].id
    {
      assert back[j] == t[k + 1 + j];
    }
    SplitAt(t, k);
    DeleteSplit(front, t[k], back);
  }

  /** Removing one row keeps ids unique. */
  lemma UniqueRemove(t: seq<Todo>, k: int)
    requires UniqueIds(t) && 0 <= k < |t|
    ensures UniqueIds(t[..k] + t[k + 1..])
  {
  }

  /** Deleting an id no row has changes nothing. */
  lemma {:induction false} DeleteNone(t: seq<Todo>, id: int)
    requires forall j :: 0 <= j < |t| ==> t[j].id != id
    ensures DeleteWhere(t, id) == t
  {
    if t != [] {
      DeleteNone(t[1..], id);
      assert t == [t[0]] + t[1..];
    }
  }

  /** After a delete, looking the id up finds nothing. */
  lemma LookupAfterDelete(t: seq<Todo>, id: int)
    ensures Lookup(DeleteWhere(t, id), id) == None
  {
  }

  /** A delete does not change what any other id looks up to. */
  lemma {:induction false} LookupOtherAfterDelete(t: seq<Todo>, id: int, other: int)
    requires other != id
    ensures Lookup(DeleteWhere(t, id), other) == Lookup(t, other)
  {
    WithIdOtherAfterDelete(t, id, other);
  }

  lemma {:induction false} WithIdOtherAfterDelete(t: seq<Todo>, id: int, other: int)
    requires other != id
    ensures WithId(DeleteWhere(t, id), other) == WithId(t, other)
  {
    if t != [] {
      WithIdOtherAfterDelete(t[1..], id, other);
      var head := if t[0].id == id then [] else [t[0]];
      WithIdAppend(head, DeleteWhere(t[1..], id), other);
      if t[0].id != id {
        assert WithId(head, other) == (if t[0].id == other then [t[0]] else []) + WithId([], other);
      }
    }
  }

  /** An update rewrites each row that has the id, in place, and keeps every
      other row. */
  lemma {:induction false} SetWhereAt(t: seq<Todo>, id: int, title: Value, description: Value, status: Value, i: int)
    requires 0 <= i < |t|
    ensures SetWhere(t, id, title, description, status)[i]
         == if t[i].id == id then Todo(id, title, description, status) else t[i]
  {
    if i > 0 {
      SetWhereAt(t[1..], id, title, description, status, i - 1);
    }
  }

  /** With unique ids, an update of the id of row `k` replaces that row
      only. */
  lemma SetAt(t: seq<Todo>, k: int, title: Value, description: Value, status: Value)
    requires UniqueIds(t) && 0 <= k < |t|
    ensures SetWhere(t, t[k].id, title, description, status)
         == t[k := Todo(t[k].id, title, description, status)]
  {
    var u := SetWhere(t, t[k].id, title, description, status);
    forall i | 0 <= i < |t|
      ensures u[i] == t[k := Todo(t[k].id, title, description, status)][i]
    {
      SetWhereAt(t, t[k].id, title, description, status, i);
    }
  }

  /** After an update, the id looks up to the row with the new values. */
  lemma LookupAfterSet(t: seq<Todo>, id: int, title: Value, description: Value, status: Value)
    requires Lookup(t, id).Some?
    ensures Lookup(SetWhere(t, id, title, description, status), id) == Some(Todo(id, title, description, status))
  {
  }

  /** An update does not change what any other id looks up to. */
  lemma {:induction false} LookupOtherAfterSet(t: seq<Todo>, id: int, title: Value, description: Value, status: Value, other: int)
    requires other != id
    ensures Lookup(SetWhere(t, id, title, description, status), other) == Lookup(t, other)
  {
    WithIdOtherAfterSet(t, id, title, description, status, other);
  }

  lemma {:induction false} WithIdOtherAfterSet(t: seq<Todo>, id: int, title: Value, description: Value, status: Value, other: int)
    requires other != id
    ensures WithId(SetWhere(t, id, title, description, status), other) == WithId(t, other)
  {
    if t != [] {
      var u := SetWhere(t, id, title, description, status);
      assert u[1..] == SetWhere(t[1..], id, title, description, status);
      WithIdOtherAfterSet(t[1..], id, title, description, status, other);
    }
  }
}
