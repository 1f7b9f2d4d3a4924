/**
 * The partial update of a user record (`updateUser` in db/index.js): a
 * request body over ten fixed columns is validated and turned into a
 * parameterised `UPDATE users SET ... WHERE id = $n` statement with its
 * parameter list, or rejected with a 400 response.
 */
module UserUpdate {
  import opened Wrappers
  import opened Decimal
  import opened SqlText

  /** The updatable columns of the `users` table. */
  datatype Field =
    | Username | Password | Email | FirstName | LastName
    | PhoneNumber | Address | City | Country | ZipCode

  /** The order in which the handler examines the columns. */
  const Order: seq<Field> :=
    [Username, Password, Email, FirstName, LastName, PhoneNumber, Address, City, Country, ZipCode]

  /** Position of a column in `Order`. */
  function Rank(f: Field): nat {
    match f
    case Username => 0
    case Password => 1
    case Email => 2
    case FirstName => 3
    case LastName => 4
    case PhoneNumber => 5
    case Address => 6
    case City => 7
    case Country => 8
    case ZipCode => 9
  }

  lemma RankInOrder(f: Field)
    ensures Rank(f) < |Order| && Order[Rank(f)] == f
  {
  }

  function Column(f: Field): string {
    match f
    case Username => "username"
    case Password => "password"
    case Email => "email"
    case FirstName => "first_name"
    case LastName => "last_name"
    case PhoneNumber => "phone_number"
    case Address => "address"
    case City => "city"
    case Country => "country"
    case ZipCode => "zip_code"
  }

  /** Columns that may be left out of a patch but, when given, must not be null. */
  predicate Required(f: Field) {
    f.Username? || f.Password? || f.Email? || f.FirstName? || f.LastName?
  }

  function NullMessage(f: Field): string
    requires Required(f)
  {
    match f
    case Username => "Username should not be null"
    case Password => "Password should not be null"
    case Email => "Email should not be null"
    case FirstName => "First Name should not be null"
    case LastName => "Last Name should not be null"
  }

  const NoFieldsMessage: string := "No valid fields provided for update."

  /**
   * One property of the JSON request body: missing (`undefined`), given as
   * `null`, or given with a value.
   */
  datatype Slot = Absent | Null | Given(value: string)

  /** The destructured request body. */
  datatype Patch = Patch(
    username: Slot, password: Slot, email: Slot, firstName: Slot, lastName: Slot,
    phoneNumber: Slot, address: Slot, city: Slot, country: Slot, zipCode: Slot)

  function Get(p: Patch, f: Field): Slot {
    match f
    case Username => p.username
    case Password => p.password
    case Email => p.email
    case FirstName => p.firstName
    case LastName => p.lastName
    case PhoneNumber => p.phoneNumber
    case Address => p.address
    case City => p.city
    case Country => p.country
    case ZipCode => p.zipCode
  }

  /** A bound query parameter. */
  datatype Param = NullParam | Text(s: string) | Int(i: int)

  function ParamOf(s: Slot): Param
    requires !s.Absent?
  {
    if s.Null? then NullParam else Text(s.value)
  }

  /** What the handler does: answer 400, or send a statement to the pool. */
  datatype UpdateOutcome =
    | Rejected(status: nat, error: string)
    | Execute(query: string, params: seq<Param>)

  predicate NullRequired(p: Patch, f: Field) {
    Required(f) && Get(p, f) == Null
  }

  /** The columns of `fs` that the patch supplies, in the order of `fs`. */
  function Supplied(p: Patch, fs: seq<Field>): (r: seq<Field>)
    ensures |r| <= |fs|
    ensures forall i | 0 <= i < |r| :: Get(p, r[i]) != Absent
  {
    if fs == [] then []
    else
      var init := Supplied(p, fs[..|fs| - 1]);
      if Get(p, fs[|fs| - 1]) != Absent then init + [fs[|fs| - 1]] else init
  }

  /** The first column of `fs` that the patch sets to null although it is required. */
  function FirstNullRequired(p: Patch, fs: seq<Field>): (r: Option<Field>)
    ensures r.Some? ==> NullRequired(p, r.value)
  {
    if fs == [] then None
    else
      var init := FirstNullRequired(p, fs[..|fs| - 1]);
      if init.Some? then init
      else if NullRequired(p, fs[|fs| - 1]) then Some(fs[|fs| - 1])
      else None
  }

  /** `col = $n`. */
  function Assignment(col: string, n: nat): string {
    col + " = $" + NatToString(n)
  }

  /** The SET list for the columns `fs`, numbered from 1. */
  function SetList(fs: seq<Field>): (r: seq<string>)
    ensures |r| == |fs|
    ensures forall i | 0 <= i < |fs| :: r[i] == Assignment(Column(fs[i]), i + 1)
  {
    if fs == [] then [] else SetList(fs[..|fs| - 1]) + [Assignment(Column(fs[|fs| - 1]), |fs|)]
  }

  /** The parameters the SET list binds, one per supplied column. */
  function Arguments(p: Patch, fs: seq<Field>): (r: seq<Param>)
    requires forall i | 0 <= i < |fs| :: Get(p, fs[i]) != Absent
    ensures |r| == |fs|
    ensures forall i | 0 <= i < |fs| :: r[i] == ParamOf(Get(p, fs[i]))
  {
    if fs == [] then [] else Arguments(p, fs[..|fs| - 1]) + [ParamOf(Get(p, fs[|fs| - 1]))]
  }

  function UpdateQuery(sets: seq<string>, whereIndex: nat): string {
    "UPDATE users SET " + Join(sets, ", ") + " WHERE id = $" + NatToString(whereIndex)
  }

  /**
   * The reference definition of the handler's decision, stated over the
   * whole patch at once: the first required column given as null wins;
   * otherwise an empty patch is rejected; otherwise every supplied column is
   * set, in column order, and the id is bound last.
   */
  function UpdateSpec(id: int, p: Patch): UpdateOutcome {
    match FirstNullRequired(p, Order)
    case Some(f) => Rejected(400, NullMessage(f))
    case None =>
      var fs := Supplied(p, Order);
      if fs == [] then Rejected(400, NoFieldsMessage)
      else Execute(UpdateQuery(SetList(fs), |fs| + 1), Arguments(p, fs) + [Int(id)])
  }

  // ---------------------------------------------------------------------
  // The handler, step by step
  // ---------------------------------------------------------------------

  /**
   * The SET list and values the handler holds after running the blocks of
   * the columns `done`, in that order, or None once one of them has
   * answered 400.
   */
  ghost function Run(p: Patch, done: seq<Field>): Option<(seq<string>, seq<Param>)>
  {
    if done == [] then Some(([], []))
    else match Run(p, done[..|done| - 1])
      case None => None
      case Some(st) => Step(p, done[|done| - 1], st)
  }

  /** One block: the state after examining column `f` from state `st`. */
  ghost function Step(p: Patch, f: Field, st: (seq<string>, seq<Param>)): Option<(seq<string>, seq<Param>)>
  {
    if Get(p, f) == Absent then Some(st)
    else if NullRequired(p, f) then None
    else Some((st.0 + [Assignment(Column(f), |st.0| + 1)], st.1 + [ParamOf(Get(p, f))]))
  }

  /** The state after the blocks of `done`, in terms of the reference definition's pieces. */
  lemma {:induction false} RunMeaning(p: Patch, done: seq<Field>)
    ensures var fs := Supplied(p, done);
      Run(p, done) == if FirstNullRequired(p, done).Some? then None else Some((SetList(fs), Arguments(p, fs)))
  {
    if done != [] {
      var pre := done[..|done| - 1];
      var f := done[|done| - 1];
      RunMeaning(p, pre);
      var fs := Supplied(p, pre);
      if Get(p, f) != Absent {
        var fs' := fs + [f];
        assert fs'[..|fs|] == fs;
      }
    }
  }

  lemma {:induction false} FirstNullRequiredPrefix(p: Patch, s: seq<Field>, k: nat)
    requires k <= |s| && FirstNullRequired(p, s[..k]).Some?
    ensures FirstNullRequired(p, s) == FirstNullRequired(p, s[..k])
    decreases |s| - k
  {
    if k < |s| {
      var init := s[..|s| - 1];
      assert init[..k] == s[..k];
      FirstNullRequiredPrefix(p, init, k);
    } else {
      assert s[..k] == s;
    }
  }

  /** The state after the first `k` blocks of the handler. */
  ghost function AfterBlocks(p: Patch, k: nat): Option<(seq<string>, seq<Param>)>
    requires k <= |Order|
  {
    if k == 0 then Some(([], []))
    else match AfterBlocks(p, k - 1)
      case None => None
      case Some(st) => Step(p, Order[k - 1], st)
  }

  lemma {:induction false} AfterBlocksIsRun(p: Patch, k: nat)
    requires k <= |Order|
    ensures AfterBlocks(p, k) == Run(p, Order[..k])
  {
    if k > 0 {
      AfterBlocksIsRun(p, k - 1);
      assert Order[..k][..k - 1] == Order[..k - 1];
    }
  }

  /** The block at position `k` answering 400 means the first null required column is `Order[k]`. */
  lemma StopsAt(p: Patch, k: nat)
    requires k < |Order| && AfterBlocks(p, k).Some? && AfterBlocks(p, k + 1).None?
    ensures FirstNullRequired(p, Order) == Some(Order[k])
  {
    AfterBlocksIsRun(p, k);
    AfterBlocksIsRun(p, k + 1);
    RunMeaning(p, Order[..k]);
    RunMeaning(p, Order[..k + 1]);
    assert Order[..k + 1][..k] == Order[..k];
    FirstNullRequiredPrefix(p, Order, k + 1);
  }

  /** A required column given as null decides the outcome, whatever else the patch holds. */
  lemma Decided(id: int, p: Patch)
    ensures FirstNullRequired(p, Order).Some? ==>
      UpdateSpec(id, p) == Rejected(400, NullMessage(FirstNullRequired(p, Order).value))
  {
  }

  /** Once all ten blocks have run without answering, the reference definition agrees. */
  lemma Conclude(id: int, p: Patch, updateFields: seq<string>, values: seq<Param>)
    requires AfterBlocks(p, |Order|) == Some((updateFields, values))
    ensures |updateFields| == 0 ==> UpdateSpec(id, p) == Rejected(400, NoFieldsMessage)
    ensures |updateFields| != 0 ==>
      UpdateSpec(id, p) == Execute("UPDATE users SET " + Join(updateFields, ", ") + " WHERE id = $" + NatToString(|values| + 1),
                                   values + [Int(id)])
  {
    AfterBlocksIsRun(p, |Order|);
    assert Order[..|Order|] == Order;
    RunMeaning(p, Order);
  }

  /**
   * One of the ten blocks of `updateUser`, for the column at position `k`:
   * when the patch supplies it, push its assignment, numbered from the
   * current length of the SET list, and its value; a required column given
   * as null stops the handler with that column's message.
   */
  method Examine(patch: Patch, k: nat, updateFields: seq<string>, values: seq<Param>)
    returns (updateFields': seq<string>, values': seq<Param>, stop: Option<string>)
    requires k < |Order| && AfterBlocks(patch, k) == Some((updateFields, values))
    ensures stop.Some? ==> NullRequired(patch, Order[k]) && stop.value == NullMessage(Order[k])
    ensures stop.Some? ==> FirstNullRequired(patch, Order) == Some(Order[k])
    ensures stop.None? ==> AfterBlocks(patch, k + 1) == Some((updateFields', values'))
  {
    var f := Order[k];
    updateFields', values', stop := updateFields, values, None;
    var given := Get(patch, f);
    if given != Absent {
      updateFields' := updateFields' + [Assignment(Column(f), |updateFields'| + 1)];
      values' := values' + [ParamOf(given)];
      if Required(f) && given == Null {
        StopsAt(patch, k);
        stop := Some(NullMessage(f));
      }
    }
  }

  /**
   * `updateUser` as db/index.js writes it: the ten column blocks in order,
   * an empty SET list answered with 400, otherwise the statement
   * `UPDATE users SET ... WHERE id = $(k+1)` with the values and then the id.
   */
  method UpdateUser(id: int, patch: Patch) returns (r: UpdateOutcome)
    ensures r == UpdateSpec(id, patch)
  {
    var updateFields: seq<string> := [];
    var values: seq<Param> := [];
    var stop: Option<string>;
    Decided(id, patch);

    updateFields, values, stop := Examine(patch, 0, updateFields, values);  // username
    if stop.Some? { return Rejected(400, stop.value); }
    updateFields, values, stop := Examine(patch, 1, updateFields, values);  // password
    if stop.Some? { return Rejected(400, stop.value); }
    updateFields, values, stop := Examine(patch, 2, updateFields, values);  // email
    if stop.Some? { return Rejected(400, stop.value); }
    updateFields, values, stop := Examine(patch, 3, updateFields, values);  // first_name
    if stop.Some? { return Rejected(400, stop.value); }
    updateFields, values, stop := Examine(patch, 4, updateFields, values);  // last_name
    if stop.Some? { return Rejected(400, stop.value); }
    updateFields, values, stop := Examine(patch, 5, updateFields, values);  // phone_number
    if stop.Some? { return Rejected(400, stop.value); }
    updateFields, values, stop := Examine(patch, 6, updateFields, values);  // address
    if stop.Some? { return Rejected(400, stop.value); }
    updateFields, values, stop := Examine(patch, 7, updateFields, values);  // city
    if stop.Some? { return Rejected(400, stop.value); }
    updateFields, values, stop := Examine(patch, 8, updateFields, values);  // country
    if stop.Some? { return Rejected(400, stop.value); }
    updateFields, values, stop := Examine(patch, 9, updateFields, values);  // zip_code
    if stop.Some? { return Rejected(400, stop.value); }

    Conclude(id, patch, updateFields, values);
    if |updateFields| == 0 {
      return Rejected(400, NoFieldsMessage);
    }

    var updateQuery := "UPDATE users SET " + Join(updateFields, ", ") + " WHERE id = $" + NatToString(|values| + 1);
    r := Execute(updateQuery, values + [Int(id)]);
  }

  // ---------------------------------------------------------------------
  // What the reference definition promises
  // ---------------------------------------------------------------------

  lemma {:induction false} SuppliedMembers(p: Patch, fs: seq<Field>)
    ensures forall f :: f in Supplied(p, fs) <==> f in fs && Get(p, f) != Absent
  {
    if fs != [] {
      var init := fs[..|fs| - 1];
      SuppliedMembers(p, init);
      assert fs == init + [fs[|fs| - 1]];
    }
  }

  /** Strictly increasing in the fixed column order: ordered, and no column twice. */
  predicate InColumnOrder(fs: seq<Field>) {
    forall i, j | 0 <= i < j < |fs| :: Rank(fs[i]) < Rank(fs[j])
  }

  /** Filtering keeps any strict column order the input has. */
  lemma {:induction false} SuppliedOrdered(p: Patch, fs: seq<Field>)
    requires InColumnOrder(fs)
    ensures InColumnOrder(Supplied(p, fs))
  {
    if fs != [] {
      var init := fs[..|fs| - 1];
      var last := fs[|fs| - 1];
      assert forall i | 0 <= i < |init| :: init[i] == fs[i];
      SuppliedOrdered(p, init);
      SuppliedMembers(p, init);
      var r0 := Supplied(p, init);
      if Get(p, last) != Absent {
        var r := r0 + [last];
        forall i, j | 0 <= i < j < |r| ensures Rank(r[i]) < Rank(r[j]) {
          assert r[i] == r0[i] && r[i] in r0;
          var m :| 0 <= m < |init| && init[m] == r[i];
          if j < |r0| {
            assert r[j] == r0[j];
            assert Rank(r0[i]) < Rank(r0[j]);
          } else {
            assert r[j] == fs[|fs| - 1];
            assert Rank(fs[m]) < Rank(fs[|fs| - 1]);
          }
        }
        assert Supplied(p, fs) == r;
      }
    }
  }

  lemma {:induction false} SuppliedEmpty(p: Patch, fs: seq<Field>)
    ensures Supplied(p, fs) == [] <==> forall i | 0 <= i < |fs| :: Get(p, fs[i]) == Absent
  {
    if fs != [] {
      var init := fs[..|fs| - 1];
      SuppliedEmpty(p, init);
      assert forall i | 0 <= i < |init| :: init[i] == fs[i];
    }
  }

  /** `FirstNullRequired` finds exactly the earliest required column given as null. */
  lemma {:induction false} FirstNullRequiredIsEarliest(p: Patch, fs: seq<Field>)
    ensures FirstNullRequired(p, fs).None? <==> forall i | 0 <= i < |fs| :: !NullRequired(p, fs[i])
    ensures forall i | 0 <= i < |fs| && NullRequired(p, fs[i]) && (forall j | 0 <= j < i :: !NullRequired(p, fs[j])) ::
      FirstNullRequired(p, fs) == Some(fs[i])
  {
    if fs != [] {
      var init := fs[..|fs| - 1];
      FirstNullRequiredIsEarliest(p, init);
      assert forall i | 0 <= i < |init| :: init[i] == fs[i];
    }
  }

  lemma RanksOfOrder()
    ensures forall i | 0 <= i < |Order| :: Rank(Order[i]) == i
    ensures InColumnOrder(Order)
    ensures forall f: Field :: f in Order
  {
    forall f: Field ensures f in Order {
      RankInOrder(f);
    }
  }

  /**
   * A patch that supplies none of the ten columns is answered with "No valid
   * fields provided for update.", and only such a patch is.
   */
  lemma NoFieldsRejected(id: int, p: Patch)
    ensures UpdateSpec(id, p) == Rejected(400, NoFieldsMessage)
            <==> forall i | 0 <= i < |Order| :: Get(p, Order[i]) == Absent
  {
    SuppliedEmpty(p, Order);
    FirstNullRequiredIsEarliest(p, Order);
    match FirstNullRequired(p, Order)
    case Some(f) =>
      assert |NullMessage(f)| != |NoFieldsMessage|;
    case None =>
  }

  /**
   * A required column given as null is answered with its own message as soon
   * as no earlier required column is null, whatever the later columns hold.
   */
  lemma FirstNullWins(id: int, p: Patch, i: nat)
    requires i < |Order| && NullRequired(p, Order[i])
    requires forall j | 0 <= j < i :: !NullRequired(p, Order[j])
    ensures UpdateSpec(id, p) == Rejected(400, NullMessage(Order[i]))
  {
    FirstNullRequiredIsEarliest(p, Order);
  }

  /**
   * The handler issues a statement exactly when no required column is null
   * and at least one column is supplied.
   */
  lemma ExecutesIff(id: int, p: Patch)
    ensures UpdateSpec(id, p).Execute? <==>
      (forall i | 0 <= i < |Order| :: !NullRequired(p, Order[i])) &&
      (exists i | 0 <= i < |Order| :: Get(p, Order[i]) != Absent)
  {
    SuppliedEmpty(p, Order);
    FirstNullRequiredIsEarliest(p, Order);
  }

  /**
   * The columns the statement sets are exactly the supplied ones, each
   * once, in the fixed column order; absent columns never appear.
   */
  lemma SuppliedExactly(p: Patch)
    ensures forall f :: f in Supplied(p, Order) <==> Get(p, f) != Absent
    ensures InColumnOrder(Supplied(p, Order))
  {
    RanksOfOrder();
    SuppliedMembers(p, Order);
    SuppliedOrdered(p, Order);
  }

  /**
   * On success, with `fs` the supplied columns: the i-th SET entry is
   * `column = $(i+1)` for the i-th of them, the i-th parameter is that
   * column's value, and the id is bound last, to `$(k+1)`.
   */
  lemma ExecuteShape(id: int, p: Patch)
    requires UpdateSpec(id, p).Execute?
    ensures var fs, r := Supplied(p, Order), UpdateSpec(id, p);
      && r.query == "UPDATE users SET " + Join(SetList(fs), ", ") + " WHERE id = $" + NatToString(|fs| + 1)
      && (forall i | 0 <= i < |fs| :: SetList(fs)[i] == Column(fs[i]) + " = $" + NatToString(i + 1))
      && |r.params| == |fs| + 1
      && (forall i | 0 <= i < |fs| :: r.params[i] == ParamOf(Get(p, fs[i])))
      && r.params[|fs|] == Int(id)
  {
    var fs := Supplied(p, Order);
    assert FirstNullRequired(p, Order).None? && fs != [];
    assert UpdateSpec(id, p) == Execute(UpdateQuery(SetList(fs), |fs| + 1), Arguments(p, fs) + [Int(id)]);
  }

  /**
   * An optional column given as null is accepted: when nothing else stops
   * the handler, the statement sets it and binds null for it.
   */
  lemma OptionalNullBound(id: int, p: Patch, f: Field)
    requires !Required(f) && Get(p, f) == Null
    requires forall i | 0 <= i < |Order| :: !NullRequired(p, Order[i])
    ensures UpdateSpec(id, p).Execute?
    ensures var fs := Supplied(p, Order);
      exists i | 0 <= i < |fs| :: fs[i] == f && UpdateSpec(id, p).params[i] == NullParam
  {
    RankInOrder(f);
    ExecutesIff(id, p);
    SuppliedExactly(p);
    ExecuteShape(id, p);
  }

  /**
   * The statement's placeholders, read left to right, are `$1 .. $(k+1)`:
   * as many as there are parameters, numbered consecutively, so the i-th
   * placeholder binds the i-th parameter.
   */
  lemma PlaceholdersMatchParams(id: int, p: Patch)
    requires UpdateSpec(id, p).Execute?
    ensures Placeholders(UpdateSpec(id, p).query) == Consecutive(|UpdateSpec(id, p).params|)
  {
    QueryPlaceholders(Supplied(p, Order));
  }

  /** The placeholders of the statement built for the columns `fs`. */
  lemma QueryPlaceholders(fs: seq<Field>)
    ensures Placeholders(UpdateQuery(SetList(fs), |fs| + 1)) == Consecutive(|fs| + 1)
  {
    SetListPlaceholders(fs);
    StatementPlaceholders(Join(SetList(fs), ", "), |fs| + 1);
    ConsecutiveSnoc(|fs|);
  }

  /** The SET list carries the placeholders `$1 .. $k`, in order. */
  lemma SetListPlaceholders(fs: seq<Field>)
    ensures Placeholders(Join(SetList(fs), ", ")) == Consecutive(|fs|)
  {
    var sets := SetList(fs);
    forall i | 0 <= i < |sets| ensures Placeholders(sets[i]) == [i + 1] {
      EntryPlaceholder(fs, i);
    }
    PlaceholdersOfJoin(sets);
  }

  lemma EntryPlaceholder(fs: seq<Field>, i: nat)
    requires i < |fs|
    ensures Placeholders(SetList(fs)[i]) == [i + 1]
  {
    ColumnHasNoDollar(fs[i]);
    AssignmentPlaceholder(Column(fs[i]), i + 1);
  }

  /** Around the SET list, the statement adds only the WHERE placeholder. */
  lemma StatementPlaceholders(joined: string, n: nat)
    ensures Placeholders("UPDATE users SET " + joined + " WHERE id = $" + NatToString(n))
            == Placeholders(joined) + [n]
  {
    var head := "UPDATE users SET ";
    var where := " WHERE id = ";
    var token := "$" + NatToString(n);
    assert " WHERE id = $" + NatToString(n) == where + token;
    assert head + joined + " WHERE id = $" + NatToString(n) == head + (joined + (where + token));
    PlaceholdersSkip(head, joined + (where + token));
    PlaceholdersAppend(joined, where + token);
    PlaceholdersSkip(where, token);
    PlaceholderToken(n);
  }

  lemma ColumnHasNoDollar(f: Field)
    ensures '$' !in Column(f)
  {
  }

  lemma AssignmentPlaceholder(col: string, n: nat)
    requires '$' !in col
    ensures Placeholders(Assignment(col, n)) == [n]
  {
    assert Assignment(col, n) == (col + " = ") + ("$" + NatToString(n));
    PlaceholdersSkip(col + " = ", "$" + NatToString(n));
    PlaceholderToken(n);
  }
}
