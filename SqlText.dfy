/**
 * The text-level pieces of a parameterised SQL statement: joining the SET
 * assignments (JavaScript's `Array.prototype.join`) and reading back the
 * positional placeholders `$1`, `$2`, ... that node-postgres binds, in the
 * order they appear in the statement.
 */
module SqlText {
  import opened Decimal

  /** `parts.join(sep)`: the parts in order, `sep` between neighbours. */
  function Join(parts: seq<string>, sep: string): string
  {
    if |parts| == 0 then ""
    else if |parts| == 1 then parts[0]
    else Join(parts[..|parts| - 1], sep) + sep + parts[|parts| - 1]
  }

  /** The longest prefix of `s` made of digits. */
  function DigitRun(s: string): (r: string)
    ensures |r| <= |s| && AllDigits(r)
  {
    if s != [] && IsDigit(s[0]) then [s[0]] + DigitRun(s[1..]) else []
  }

  /**
   * The placeholder numbers of a statement, left to right: every `$`
   * immediately followed by one or more digits is a placeholder whose
   * number is what those digits denote.
   */
  function Placeholders(s: string): seq<nat>
    decreases |s|
  {
    if s == [] then []
    else if s[0] == '$' && DigitRun(s[1..]) != [] then
      var d := DigitRun(s[1..]);
      [DigitsValue(d)] + Placeholders(s[1 + |d|..])
    else Placeholders(s[1..])
  }

  /** `1, 2, ..., k`. */
  function Consecutive(k: nat): (r: seq<nat>)
    ensures |r| == k && forall i | 0 <= i < k :: r[i] == i + 1
  {
    seq(k, i requires 0 <= i < k => i + 1)
  }

  lemma ConsecutiveSnoc(k: nat)
    ensures Consecutive(k) + [k + 1] == Consecutive(k + 1)
  {
    var a, b := Consecutive(k) + [k + 1], Consecutive(k + 1);
    assert |a| == |b|;
    forall i | 0 <= i < |a| ensures a[i] == b[i] {
      if i < k {
        assert a[i] == Consecutive(k)[i];
      }
    }
  }

  predicate StartsWithNonDigit(s: string) {
    s == [] || !IsDigit(s[0])
  }

  lemma {:induction false} DigitRunOfDigits(s: string)
    requires AllDigits(s)
    ensures DigitRun(s) == s
  {
    if s != [] {
      DigitRunOfDigits(s[1..]);
    }
  }

  /** A digit run never reaches past a non-digit boundary. */
  lemma {:induction false} DigitRunAppend(x: string, y: string)
    requires StartsWithNonDigit(y)
    ensures DigitRun(x + y) == DigitRun(x)
  {
    if x == [] {
      assert x + y == y;
    } else {
      assert (x + y)[0] == x[0];
      assert (x + y)[1..] == x[1..] + y;
      DigitRunAppend(x[1..], y);
    }
  }

  /** Text without `$` contributes no placeholder. */
  lemma {:induction false} PlaceholdersSkip(a: string, b: string)
    requires '$' !in a
    ensures Placeholders(a + b) == Placeholders(b)
  {
    if a != [] {
      assert (a + b)[0] == a[0];
      assert (a + b)[1..] == a[1..] + b;
      PlaceholdersSkip(a[1..], b);
    } else {
      assert a + b == b;
    }
  }

  /** One step of the scan over a non-empty text. */
  lemma {:induction false} PlaceholdersStep(s: string)
    requires s != []
    ensures var d := DigitRun(s[1..]);
      Placeholders(s) == if s[0] == '$' && d != [] then [DigitsValue(d)] + Placeholders(s[1 + |d|..])
                         else Placeholders(s[1..])
  {
  }

  /**
   * Placeholders of a concatenation are those of the parts, provided the
   * second part cannot extend a number that ends the first.
   */
  lemma {:induction false} PlaceholdersAppend(a: string, b: string)
    requires StartsWithNonDigit(b)
    ensures Placeholders(a + b) == Placeholders(a) + Placeholders(b)
    decreases |a|, 2
  {
    if a == [] {
      assert a + b == b;
    } else if a[0] == '$' && DigitRun(a[1..]) != [] {
      PlaceholdersAppendToken(a, b);
    } else {
      PlaceholdersAppendOther(a, b);
    }
  }

  lemma {:induction false} PlaceholdersAppendToken(a: string, b: string)
    requires StartsWithNonDigit(b)
    requires a != [] && a[0] == '$' && DigitRun(a[1..]) != []
    ensures Placeholders(a + b) == Placeholders(a) + Placeholders(b)
    decreases |a|, 1
  {
    var d := DigitRun(a[1..]);
    var rest := a[1 + |d|..];
    DigitRunSplit(a[1..]);
    assert a == "$" + d + rest;
    PlaceholdersAppendTokenParts(d, rest, b);
  }

  /** The token case of `PlaceholdersAppend`, with the token taken apart. */
  lemma {:induction false} PlaceholdersAppendTokenParts(d: string, rest: string, b: string)
    requires d != [] && AllDigits(d) && StartsWithNonDigit(rest) && StartsWithNonDigit(b)
    ensures Placeholders("$" + d + rest + b) == Placeholders("$" + d + rest) + Placeholders(b)
    decreases |"$" + d + rest|, 0
  {
    PlaceholdersOfToken(d, rest);
    TokenRegroup(d, rest, b);
    PlaceholdersOfToken(d, rest + b);
    PlaceholdersAppend(rest, b);
    AppendAssoc([DigitsValue(d)], Placeholders(rest), Placeholders(b));
  }

  lemma TokenRegroup(d: string, rest: string, b: string)
    requires StartsWithNonDigit(rest) && StartsWithNonDigit(b)
    ensures "$" + d + rest + b == "$" + d + (rest + b)
    ensures StartsWithNonDigit(rest + b)
  {
    if rest == [] {
      assert rest + b == b;
    }
  }

  lemma AppendAssoc<T>(x: seq<T>, y: seq<T>, z: seq<T>)
    ensures x + (y + z) == (x + y) + z
  {
  }

  /** A text splits into its digit run and a rest that starts with a non-digit. */
  lemma {:induction false} DigitRunSplit(s: string)
    ensures s == DigitRun(s) + s[|DigitRun(s)|..]
    ensures StartsWithNonDigit(s[|DigitRun(s)|..])
  {
    if s != [] && IsDigit(s[0]) {
      DigitRunSplit(s[1..]);
      assert s[1..][|DigitRun(s[1..])|..] == s[|DigitRun(s)|..];
    }
  }

  /** A `$`, a number and then a non-digit: one placeholder, then the rest. */
  lemma PlaceholdersOfToken(d: string, rest: string)
    requires d != [] && AllDigits(d) && StartsWithNonDigit(rest)
    ensures Placeholders("$" + d + rest) == [DigitsValue(d)] + Placeholders(rest)
  {
    var t := "$" + d + rest;
    assert t[1..] == d + rest;
    DigitRunAppend(d, rest);
    DigitRunOfDigits(d);
    assert t[1 + |d|..] == rest;
  }

  lemma {:induction false} PlaceholdersAppendOther(a: string, b: string)
    requires StartsWithNonDigit(b)
    requires a != [] && !(a[0] == '$' && DigitRun(a[1..]) != [])
    ensures Placeholders(a + b) == Placeholders(a) + Placeholders(b)
    decreases |a|, 0
  {
    var ab := a + b;
    assert ab[1..] == a[1..] + b;
    DigitRunAppend(a[1..], b);
    PlaceholdersStep(a);
    PlaceholdersStep(ab);
    PlaceholdersAppend(a[1..], b);
  }

  /** `$n` is exactly the one placeholder numbered `n`. */
  lemma PlaceholderToken(n: nat)
    ensures Placeholders("$" + NatToString(n)) == [n]
  {
    var t := "$" + NatToString(n);
    DigitRunOfDigits(NatToString(n));
    assert t[1..] == NatToString(n);
    NatToStringRoundTrip(n);
    assert t[1 + |NatToString(n)|..] == [];
  }

  /**
   * Joining with ", " parts whose i-th holds exactly the placeholder i+1
   * yields the placeholders 1..k in order.
   */
  lemma {:induction false} PlaceholdersOfJoin(parts: seq<string>)
    requires forall i | 0 <= i < |parts| :: Placeholders(parts[i]) == [i + 1]
    ensures Placeholders(Join(parts, ", ")) == Consecutive(|parts|)
  {
    var n := |parts|;
    if n == 1 {
      assert Placeholders(parts[0]) == [1];
    } else if n > 1 {
      var init := parts[..n - 1];
      var last := parts[n - 1];
      PlaceholdersOfJoin(init);
      var j := Join(init, ", ");
      assert Join(parts, ", ") == j + (", " + last);
      PlaceholdersAppend(j, ", " + last);
      PlaceholdersSkip(", ", last);
      ConsecutiveSnoc(n - 1);
    }
  }
}
