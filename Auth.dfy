/**
 * The Passport callbacks: the local strategy's credential check and the
 * session's serialize/deserialize pair, as functions of the `users` table.
 *
 * `bcrypt.compare(plain, hash)` is the parameter `compare`; nothing is
 * assumed about it.
 */
module Auth {
  import opened Wrappers
  import opened Users

  /** What a callback hands to `done`: a user, or `false` with a message. */
  datatype Done = Accepted(user: User) | Declined(message: string)

  const IncorrectUsername := "Incorrect username."
  const IncorrectPassword := "Incorrect password."
  const UserNotFound := "User not found."

  /**
   * The local strategy: look the username up, compare the password with
   * the first row's stored hash, and accept that row.
   */
  function Authenticate(table: Table, username: string, password: string,
                        compare: (string, string) -> bool): (r: Done)
    ensures FirstMatch(table, ByUsername(username)).None? ==>
      r == Declined(IncorrectUsername)
    ensures FirstMatch(table, ByUsername(username)).Some? ==>
      var u := table[FirstMatch(table, ByUsername(username)).value];
      r == if compare(password, u.password) then Accepted(u) else Declined(IncorrectPassword)
  {
    SelectFirst(table, ByUsername(username));
    var rows := Select(table, ByUsername(username));
    if |rows| == 0 then Declined(IncorrectUsername)
    else
      var user := rows[0];
      if !compare(password, user.password) then Declined(IncorrectPassword)
      else Accepted(user)
  }

  /** The session stores only the user's id: no other column, the hash included. */
  function Serialize(user: User): (id: int)
    ensures id == user.id
  {
    user.id
  }

  /** Restore the session's user: the first row with that id. */
  function Deserialize(table: Table, id: int): (r: Done)
    ensures r == Declined(UserNotFound) <==> forall i | 0 <= i < |table| :: table[i].id != id
    ensures r.Accepted? <==> exists i | 0 <= i < |table| :: table[i].id == id
    ensures r.Declined? ==> r == Declined(UserNotFound)
    ensures r.Accepted? ==>
      && IsFirstMatch(table, ById(id), FirstMatch(table, ById(id)).value)
      && r.user == table[FirstMatch(table, ById(id)).value]
    ensures r.Accepted? ==> Serialize(r.user) == id
  {
    SelectFirst(table, ById(id));
    var rows := Select(table, ById(id));
    if |rows| == 0 then Declined(UserNotFound)
    else Accepted(rows[0])
  }

  /**
   * The three outcomes of a login: an unknown username, a known one whose
   * first row's hash rejects the password, or that first row accepted.
   * An accepted user always carries the given username and a hash that
   * accepts the password.
   */
  lemma AuthenticateOutcomes(table: Table, username: string, password: string,
                             compare: (string, string) -> bool)
    ensures var r := Authenticate(table, username, password, compare);
      && (r == Declined(IncorrectUsername) <==> forall u | u in table :: u.username != username)
      && (r == Declined(IncorrectPassword) <==>
            exists i :: IsFirstMatch(table, ByUsername(username), i)
                     && !compare(password, table[i].password))
      && (r.Accepted? <==>
            exists i :: IsFirstMatch(table, ByUsername(username), i)
                     && compare(password, table[i].password) && r.user == table[i])
      && (r.Accepted? ==> r.user in table && r.user.username == username
                          && compare(password, r.user.password))
  {
  }

  /**
   * Only the first row with the username is consulted: a later row with
   * the same username whose hash would accept the password does not help.
   */
  lemma OnlyFirstRowConsulted(table: Table, username: string, password: string,
                              compare: (string, string) -> bool, i: int)
    requires IsFirstMatch(table, ByUsername(username), i)
    requires !compare(password, table[i].password)
    ensures Authenticate(table, username, password, compare) == Declined(IncorrectPassword)
  {
  }

  /**
   * The session round trip: deserializing the id of a user that some row
   * still carries (the row may have been updated since login) yields the
   * first row with that id, and, when the user is itself a row and ids are
   * unique, the user itself.
   */
  lemma SessionRoundTrip(table: Table, u: User)
    requires exists i | 0 <= i < |table| :: table[i].id == u.id
    ensures Deserialize(table, Serialize(u)).Accepted?
    ensures Serialize(Deserialize(table, Serialize(u)).user) == Serialize(u)
    ensures u in table && UniqueIds(table) ==> Deserialize(table, Serialize(u)) == Accepted(u)
  {
    if u in table && UniqueIds(table) {
      var i :| 0 <= i < |table| && table[i] == u;
      FirstMatchUniqueId(table, i);
    }
  }
}
