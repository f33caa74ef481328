# Todo API resource manager — a Dafny model

This project models the core of a small Express/sql.js Todo service.

**Result shaping (`routes/utils.js`).**
- `toArray` turns a sql.js result (`[{columns, values}]`) into one record per value row.
- `formatTodo` and `formatTodos` project records onto the four public fields `id`, `title`, `description` and `status`.

**The six handlers (`routes/todo.js`).**
- They are create, list, get by id, update, delete and title search, plus the helper `toObj`.
- They run over one shared `todos` table.
- After every successful change the table is written back to its file with `saveDb()`.

Files:
- `values.dfy` (module `Values`) holds the JavaScript values the code handles: `undefined`, `null`, integers and strings. It also holds records (objects as `map<string, Value>`), sql.js result sets, and the operators the handlers use: `!v`, `??`, and destructuring defaults.
- `utils.dfy` (module `Utils`) models `routes/utils.js`. The `forEach` that fills one record and the loop of `formatTodos` are methods with loop invariants.
- `table.dfy` (module `Table`) stands in for the SQL engine. It covers the `todos` rows and each statement the handlers run: `WHERE id = ?`, `UPDATE … WHERE id = ?`, `DELETE … WHERE id = ?`, `LIMIT ? OFFSET ?` and `title LIKE '%q%'`. Each statement is a function on the rows, in storage order, with lemmas about it.
- `todo.dfy` (module `TodoRoutes`) models `routes/todo.js`. `ToObj` is a method. Class `TodoStore` has three fields:
  - `table`: the in-memory database;
  - `nextId`: the id the engine hands out next;
  - `disk`: the snapshot in the backing file. `saveDb()` is `disk := table`.

  Each handler is one method that returns a status code and a body.

Three behaviours of `routes/todo.js` are worth stating up front:
- An update accepts an empty title (`"" ?? old` is `""`). So only rows as created are guaranteed a non-empty title.
- `parseInt(x) || d` turns 0 into the default: `limit=0` gives 10 and `skip=0` gives 0. Negative values reach SQLite unchanged.
- The handlers have no try/catch, so no engine failure is turned into a 500 answer (see Left out).

## Model

| member | source | states |
|---|---|---|
| `Utils.RowRecordKeys` | routes/utils.js:13-14 | the record built from a row has exactly one key per distinct column name |
| `Utils.RowRecordLastWins` | routes/utils.js:13-14 | key `columns[i]` holds `vals[i]` unless a later column repeats the name; a missing value reads as `undefined` |
| `Utils.ZipRow` | routes/utils.js:13-14 | the `forEach` loop builds exactly `RowRecord(cols, vals)`, whose keys are the column names |
| `Utils.ToArray` | routes/utils.js:9-17 | null or empty input gives `[]`; otherwise one record per value row of the first result set, same order, later result sets ignored |
| `Utils.FormatTodo` | routes/utils.js:29-36 | the output's keys are exactly id, title, description, status, each equal to the input's field (undefined if absent); all other keys dropped |
| `Utils.FormatTodoIdempotent` | routes/utils.js:29-35 | formatting an already formatted todo gives the same record |
| `Utils.FormatTodoFixes` | routes/utils.js:29-35 | a record with exactly the four public keys is unchanged by formatting |
| `Utils.FormatTodos` | routes/utils.js:43-54 | a new list of the same length whose element i is `formatTodo(todos[i])`; `[]` gives `[]` |
| `Table.Exec` | routes/todo.js:72-74 | a `SELECT *` yields no result set when no row matched, otherwise one result set with the table's columns and one value row per matched row |
| `Table.WithId` | routes/todo.js:72 | `WHERE id = ?` returns only rows of the table with that id |
| `Table.WithIdEmpty` | routes/todo.js:73-74 | the select finds nothing exactly when no row has the id (the 404 test) |
| `Table.Lookup` | routes/todo.js:72-76 | the row read by id is absent exactly when no row has the id, and otherwise is a row of the table with that id |
| `Table.SetWhere` | routes/todo.js:101-106 | `UPDATE … WHERE id = ?` keeps the number of rows |
| `Table.SetWhereAt` | routes/todo.js:101-106 | the update rewrites every row with the id to the new values in place and leaves every other row as it was |
| `Table.SetAt` | routes/todo.js:101-106 | with unique ids, the update replaces the one row with that id at its position |
| `Table.LookupAfterSet` | routes/todo.js:101-107 | reading the id back after the update gives the row with the new values |
| `Table.LookupOtherAfterSet` | routes/todo.js:101-106 | an update changes no other id's row |
| `Table.WithIdOtherAfterSet` | routes/todo.js:101-106 | selecting any other id gives the same rows before and after the update |
| `Table.DeleteWhere` | routes/todo.js:126 | `DELETE … WHERE id = ?` keeps exactly the rows whose id differs |
| `Table.DeleteAt` | routes/todo.js:126 | with unique ids, deleting the id of row k removes that row only and keeps the others in order |
| `Table.DeleteNone` | routes/todo.js:126 | deleting an id no row has leaves the table as it was |
| `Table.LookupAfterDelete` | routes/todo.js:126 | after a delete the id is not found (the later GET answers 404) |
| `Table.LookupOtherAfterDelete` | routes/todo.js:126 | a delete does not change what any other id reads |
| `Table.WithIdOtherAfterDelete` | routes/todo.js:126 | selecting any other id gives the same rows before and after the delete |
| `Table.DeleteAppend` | routes/todo.js:126 | deleting from two parts of a table deletes from each part and joins the results |
| `Table.DeleteSplit` | routes/todo.js:126 | deleting the id of one row, when no row around it has that id, removes that row and nothing else |
| `Table.UniqueRemove` | routes/todo.js:126 | removing one row keeps ids unique |
| `Table.Page` | routes/todo.js:54 | `LIMIT limit OFFSET skip` gives at most `limit` rows, exactly `min(limit, n - skip)` when `skip <= n`, row i being table row `skip + i` |
| `Table.ContainsIff` | routes/todo.js:142 | the substring test holds exactly when the query occurs at some position of the title |
| `Table.TitleLike` | routes/todo.js:142 | `title LIKE '%q%'` keeps exactly the rows whose title contains q ignoring ASCII case |
| `Table.TitleLikeAppend` | routes/todo.js:142 | the search keeps storage order: searching two parts of the table gives the two answers joined |
| `Table.TitleLikeSingle` | routes/todo.js:142 | one row is kept, once, exactly when its title matches; with `TitleLikeAppend` this fixes the whole answer row by row |
| `Table.TitleLikeEmpty` | routes/todo.js:140-142 | the empty query returns every row whose title is text or a number, in order |
| `Table.WithIdAppend` | routes/todo.js:28-34 | selecting by id over a table with rows appended gives the two selections joined |
| `Table.WithIdAppendFresh` | routes/todo.js:28-34 | a row inserted under a fresh id is the only row found by that id |
| `Table.WithIdUnique` | routes/todo.js:72 | with unique ids, the row at position k is the only row found by its id |
| `TodoRoutes.ToObj` | routes/todo.js:152-158 | null exactly when there is no result, no result set or no value row; otherwise the first row zipped with the columns |
| `TodoRoutes.SelectById` | routes/todo.js:72-76 | selecting an id and applying `toObj` gives null exactly when no row has the id; otherwise the record of the row found, which `formatTodo` leaves unchanged |
| `TodoRoutes.SelectRows` | routes/todo.js:54-59 | `formatTodos(toArray(exec(...)))` returns exactly the records of the selected rows, in order, one per row |
| `TodoRoutes.FormattedRow` | routes/todo.js:34-38 | a row read back with `SELECT *`, zipped and formatted, is exactly that row's four fields |
| `TodoRoutes.SetKeepsValid` | routes/todo.js:96-106 | merging storable values into an existing row keeps ids unique and every row storable |
| `TodoRoutes.DeleteKeepsValid` | routes/todo.js:126 | deleting an existing row keeps the table valid |
| `TodoRoutes.TodoStore.constructor` | routes/todo.js:27 | a new database starts with an empty table and an empty file, next id 1 |
| `TodoRoutes.TodoStore.Save` | routes/todo.js:35 | `saveDb()` makes the file snapshot equal to the table |
| `TodoRoutes.TodoStore.Create` | routes/todo.js:21-39 | a falsy title gives 422 "title is required" and changes nothing. Otherwise one row is appended with a fresh id. Description defaults to null and status to "pending", but only when the field is undefined. Then the file is saved and the stored row is returned with 201 |
| `TodoRoutes.TodoStore.List` | routes/todo.js:50-60 | skip is the parameter or 0, limit the parameter or 10 (also for 0). The answer is at most `limit` rows in storage order, starting at `skip`. Nothing is written |
| `TodoRoutes.TodoStore.Get` | routes/todo.js:70-77 | 404 "Todo not found" exactly when no row has the id, otherwise that row formatted; nothing is written |
| `TodoRoutes.TodoStore.Update` | routes/todo.js:90-111 | an unknown id gives 404 with table and file unchanged. Otherwise each field takes the request value unless it is null or undefined, and keeps the old value then. An empty title is accepted. Only that row changes; the file is saved; the re-read row is returned |
| `TodoRoutes.TodoStore.Delete` | routes/todo.js:121-129 | an unknown id gives 404 with table and file unchanged. Otherwise exactly the rows with that id go, the file is saved, and the answer is "Todo deleted" |
| `TodoRoutes.TodoStore.Search` | routes/todo.js:139-145 | the rows whose title contains q ignoring ASCII case, in storage order; a missing or empty q gives every row; nothing is written |
| `TodoRoutes.Scenario` | __tests__/todo.test.js:33-136 | creating "Apprendre Jest" with description "Faire des tests fonctionnels" gives 201 with both fields kept and status "pending". While it exists, a search for "apprendre" finds exactly that row (the search test asks only that every hit contains it). Setting the status to "done" keeps title and description. The delete confirms, and a later get answers 404 |

## Left out

- The SQL engine itself is not modelled: sql.js `run`/`exec`, SQL text, and `last_insert_rowid`. Each statement is a function on the row table. Fresh ids come from a counter that never reuses an id.
- `database/database.js` (`getDb`/`saveDb`) is not part of this model. The file write is the assignment `disk := table`. The lazy one-time open and loading an existing file are not modelled; the model starts from an empty database.
- The column types and id allocation of the `todos` table, both set by `database/database.js`, are not modelled. The model stores values as given, so a numeric title reads back as a number; a TEXT column would read it back as a string. The model never reuses an id; an `id` column without AUTOINCREMENT lets SQLite reuse the id of a deleted last row.
- The handlers are `async`, and requests can run concurrently. Each handler is modelled as one sequential step, so interleavings between requests are not covered.
- The 500 "Internal server error" answer is left out. The error tests expect it, but `routes/todo.js` has no try/catch.
- `parseInt` is not modelled. `skip` and `limit` arrive already parsed: `None` for missing or unparsable, otherwise a non-negative integer. Negative values are left out, because SQLite gives them its own meaning.
- TodoRoutes.TodoStore.Search: `%` and `_` inside the query are matched as literal characters. In the source they act as LIKE wildcards. Case folding is ASCII only.
- `req.params.id` is taken as an integer. Coercing the route's string parameter, and malformed ids, are not modelled.
- Request values cover `undefined`, `null`, integers and strings. Booleans, floating-point numbers, arrays and objects in a JSON body are not modelled.
- Express routing, the JSON encoding of responses, `app.js` (Swagger UI, the `/debug` endpoint, `listen`), the logger and the `console.log` calls are out of scope.
