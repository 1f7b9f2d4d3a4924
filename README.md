# User service core of db/index.js, modelled in Dafny

This project models the logic of the user service in `db/index.js`, which
sits behind an Express/Passport e-commerce backend:

- **`updateUser`** validates a partial update of a user. The request
  body may carry any of ten columns: `username`, `password`, `email`,
  `first_name`, `last_name`, `phone_number`, `address`, `city`, `country`
  and `zip_code`. A column that the body leaves out is skipped. The first
  five columns must not be `null` when they are given; a `null` in one of
  them ends the request with a 400 and that column's message. The last
  five columns accept `null` and bind it. A body that supplies no column is
  answered with `No valid fields provided for update.`. Otherwise the
  handler builds `UPDATE users SET col = $1, ... WHERE id = $(k+1)` with
  the parameter list `values ++ [id]`.
- **The local strategy's verify callback** looks the username up. It
  answers `Incorrect username.` when no row has that username. Otherwise
  it compares the password with the stored hash of the *first* row. It
  answers `Incorrect password.` when they do not match and accepts that
  row when they do.
- **`serializeUser` / `deserializeUser`**: the session stores the user's
  `id`. Deserializing finds the first row with that id, or answers
  `User not found.`.

Modules:

- `Wrappers` holds `Option`.
- `Decimal` renders a natural number as decimal text and reads it back.
- `SqlText` holds `Array.prototype.join` and a scanner that reads the
  `$n` placeholders of a statement.
- `UserUpdate` holds the patch, the reference definition `UpdateSpec`, and
  the handler `UpdateUser`. `UpdateUser` is an imperative method that runs
  the ten column blocks in order, pushes onto `updateFields` and `values`,
  and returns early. It is proved equal to `UpdateSpec`.
- `Users` holds the rows of the `users` table and the single-key `SELECT`.
- `Auth` holds the Passport callbacks.

## Model

| member | source | states |
|---|---|---|
| UserUpdate.UpdateUser | db/index.js:134-223 | The handler's outcome, including every early 400 exit and the final statement with its parameters, equals the reference definition `UpdateSpec`. |
| UserUpdate.Examine | db/index.js:141-209 | One column block. When a required column is given as null, the block stops with that column's message, and that column is the first null required one of the whole patch. Otherwise the SET list and values grow exactly as the reference run of the first k+1 blocks says. |
| UserUpdate.RunMeaning | db/index.js:141-209 | Running the blocks over any column list stops exactly when the list holds a required column given as null. Otherwise the run leaves the numbered SET list of the supplied columns and their values. |
| UserUpdate.Supplied | db/index.js:141-209 | The columns kept are no more than those examined, and each of them is present in the body. |
| UserUpdate.SuppliedMembers | db/index.js:141-209 | A column is in the SET list exactly when it is examined and present in the body; absent columns never appear. |
| UserUpdate.SuppliedOrdered | db/index.js:141-209 | The SET list keeps the handler's fixed column order, with no column twice. |
| UserUpdate.SuppliedExactly | db/index.js:141-209 | For the real patch: the SET columns are exactly the supplied ones, each once, in the fixed order. |
| UserUpdate.SuppliedEmpty | db/index.js:141-211 | The SET list is empty exactly when every column is absent from the body. |
| UserUpdate.FirstNullRequired | db/index.js:144-183 | The column picked is a required column that the body sets to null. |
| UserUpdate.FirstNullRequiredIsEarliest | db/index.js:141-184 | No column is picked exactly when no required column is null; otherwise the earliest such column is picked. |
| UserUpdate.SetList | db/index.js:141-209 | The i-th SET entry is `column = $(i+1)` for the i-th supplied column; the number counts the entries pushed before it. |
| UserUpdate.Arguments | db/index.js:141-209 | The i-th value is the i-th supplied column's value, with null bound as NULL. |
| UserUpdate.NoFieldsRejected | db/index.js:211-215 | The answer is `400 No valid fields provided for update.` if and only if the body supplies none of the ten columns. |
| UserUpdate.FirstNullWins | db/index.js:141-184 | When some required column is null and no earlier required column is, the answer is that column's 400 message, whatever the later columns hold. |
| UserUpdate.ExecutesIff | db/index.js:141-223 | A statement is issued if and only if no required column is null and at least one column is supplied. |
| UserUpdate.ExecuteShape | db/index.js:141-223 | On success with supplied columns fs: the statement is `UPDATE users SET <entries joined by ", "> WHERE id = $(|fs|+1)`; the i-th entry is `column_i = $(i+1)`; there are |fs|+1 parameters; the first |fs| are the column values in order; the last is the id. |
| UserUpdate.OptionalNullBound | db/index.js:186-209 | An optional column given as null is accepted: when no required column is null, a statement is issued that sets the column and binds NULL for it. |
| UserUpdate.PlaceholdersMatchParams | db/index.js:218-223 | The placeholders of the issued statement, read left to right, are exactly `$1 .. $n`, where n is the number of parameters. |
| UserUpdate.QueryPlaceholders | db/index.js:218 | The statement for k columns carries the placeholders `$1 .. $(k+1)`, in order. |
| UserUpdate.StatementPlaceholders | db/index.js:218 | The text around the SET list adds only the WHERE placeholder, last. |
| SqlText.PlaceholdersOfJoin | db/index.js:218 | Joining entries whose i-th carries only `$(i+1)` yields the placeholders `$1 .. $k`. |
| SqlText.PlaceholdersAppend | db/index.js:218 | The placeholders of a concatenation are those of the parts, when the second part does not continue a number. |
| SqlText.PlaceholderToken | db/index.js:218 | The text `$` followed by the decimal rendering of n reads back as the single placeholder n. |
| Decimal.NatToString | db/index.js:142 | The rendering of a number is non-empty decimal digits with no leading zero. |
| Decimal.NatToStringRoundTrip | db/index.js:218 | Reading the decimal rendering of n back gives n. |
| Decimal.NatToStringInjective | db/index.js:218 | Distinct numbers render as distinct texts. |
| Users.FirstMatch | db/index.js:24-31 | The position found is the first row matching the key; none is found exactly when no row matches. |
| Users.Select | db/index.js:24 | Every result row is a table row matching the key and every matching table row is among the results; there are no more results than rows. Order and multiplicity are not stated here; `SelectFirst` states which row comes first. |
| Users.SelectFirst | db/index.js:59-63 | The result is empty exactly when no row matches, and `rows[0]` is the first matching row of the table. |
| Users.FirstMatchUniqueId | db/index.js:57-63 | When ids are unique, the lookup by a row's id finds that row. |
| Auth.Authenticate | db/index.js:22-42 | An unknown username gives `Incorrect username.`. Otherwise the first row with that username is accepted when the password matches its hash, and `Incorrect password.` is given when it does not. |
| Auth.AuthenticateOutcomes | db/index.js:22-42 | The three outcomes exactly. `Incorrect username.` iff no row has the username. `Incorrect password.` iff the first such row's hash rejects the password. Acceptance iff it accepts, with that row as the user. An accepted user is in the table, carries the username and has a matching hash. |
| Auth.OnlyFirstRowConsulted | db/index.js:31-38 | When the first row with the username rejects the password, the login fails even if a later row with the same username would accept it. |
| Auth.Serialize | db/index.js:51-53 | The session stores the user's id. |
| Auth.Deserialize | db/index.js:55-64 | `User not found.` iff no row has the id, and that is the only way to be declined. The user is accepted iff some row has the id, and then it is the first row with the id, whose serialized form is that id. |
| Auth.SessionRoundTrip | db/index.js:51-64 | Deserializing the serialized id of any user whose id some row carries (the row may have been updated since login) succeeds with a row of the same id; when the user is itself a row and ids are unique, it gives back the user itself. |

## Left out

- The `pg` connection pool and its configuration from the environment are not modelled. The table is a parameter.
- `getUsers`, `getUserById`, `createUser` and `deleteUser` are left out. They pass SQL straight to the pool, with nothing to validate, so the model would only restate the SQL.
- Database and bcrypt errors are left out, so is the `catch` that hands them to `done(err)`, and so are the 500 responses.
- `bcrypt.compare` is the function parameter `compare`. Nothing is assumed of it, so the hashing itself is not modelled.
- `parseInt` of the route parameter is left out. The id is an integer, so a `NaN` id is not modelled.
- JSON values in the body are modelled as text (`Given(value)`), `null` or absent. The model does not distinguish numbers or booleans from strings.
- Rows of a `SELECT` without `ORDER BY` come back in the table's order. The database makes no such promise.
- What happens after `pool.query` is left out: executing the UPDATE and the `User modified with ID` response are not modelled. The model ends at the statement and its parameters.
- Express routing, Passport's session machinery, concurrency of requests, and the views are not modelled.
- UserUpdate.UpdateUser: the ten blocks of the handler are written once, as the method `Examine` applied to column positions 0 to 9. Each call runs the same statements as the block it replaces: the push of the numbered assignment, the push of the value, and then the null check.
- Users.Select: its contract states which rows are returned, not their order or how often each appears. The only order the callbacks use, that `rows[0]` is the first matching row, is stated by `SelectFirst`.
