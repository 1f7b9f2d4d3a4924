/**
 * Rows of the `users` table and the single-key lookups the session code
 * issues against it (`SELECT * FROM users WHERE <column> = $1`).
 *
 * The table is a sequence: a query without ORDER BY returns its matching
 * rows in the order the sequence lists them.
 */
module Users {
  import opened Wrappers

  /** One row of the `users` table; the last five columns are nullable. */
  datatype User = User(
    id: int,
    username: string,
    password: string,
    email: string,
    firstName: string,
    lastName: string,
    phoneNumber: Option<string>,
    address: Option<string>,
    city: Option<string>,
    country: Option<string>,
    zipCode: Option<string>)

  type Table = seq<User>

  /** The column a lookup compares, with the value bound to `$1`. */
  datatype Key = ByUsername(name: string) | ById(id: int)

  predicate Matches(u: User, key: Key)
  {
    match key
    case ByUsername(name) => u.username == name
    case ById(id) => u.id == id
  }

  /** Row `i` matches the key and no earlier row does. */
  predicate IsFirstMatch(table: Table, key: Key, i: int)
  {
    && 0 <= i < |table|
    && Matches(table[i], key)
    && forall j | 0 <= j < i :: !Matches(table[j], key)
  }

  /** The position of the first row matching the key, if any. */
  function FirstMatch(table: Table, key: Key): (r: Option<nat>)
    ensures r.None? <==> forall i | 0 <= i < |table| :: !Matches(table[i], key)
    ensures r.Some? ==> IsFirstMatch(table, key, r.value)
    decreases |table|
  {
    if table == [] then None
    else if Matches(table[0], key) then Some(0)
    else match FirstMatch(table[1..], key)
      case None => None
      case Some(i) => Some(i + 1)
  }

  /** The result rows of `SELECT * FROM users WHERE <key column> = $1`. */
  function Select(table: Table, key: Key): (rows: seq<User>)
    ensures |rows| <= |table|
    ensures forall u :: u in rows <==> u in table && Matches(u, key)
    decreases |table|
  {
    if table == [] then []
    else (if Matches(table[0], key) then [table[0]] else []) + Select(table[1..], key)
  }

  /**
   * The first result row of a lookup is the first matching row of the
   * table, and the lookup is empty exactly when no row matches.
   */
  lemma {:induction false} SelectFirst(table: Table, key: Key)
    ensures Select(table, key) == [] <==> FirstMatch(table, key).None?
    ensures Select(table, key) != [] ==>
      Select(table, key)[0] == table[FirstMatch(table, key).value]
    decreases |table|
  {
    if table != [] && !Matches(table[0], key) {
      SelectFirst(table[1..], key);
    }
  }

  /** No two rows share an id (the table's primary key). */
  predicate UniqueIds(table: Table)
  {
    forall i, j | 0 <= i < j < |table| :: table[i].id != table[j].id
  }

  /** Under a primary key on `id`, the row found by id is the one holding it. */
  lemma FirstMatchUniqueId(table: Table, i: int)
    requires UniqueIds(table)
    requires 0 <= i < |table|
    ensures FirstMatch(table, ById(table[i].id)) == Some(i)
  {
  }
}
