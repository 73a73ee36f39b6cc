/** What `ParseExpression`, `ParseUniqueExpression`, `ParseParenthesisExpression`
    and `PerformOpeartion` compute, as functions of their inputs. */
module Decoding {
  import opened Strings
  import opened Failures

  /** The canonical unit that `!+[]` and `!![]` are rewritten to. */
  const Unit := '1'

  /** The delimiter between the parenthesised digit groups. */
  const GroupSeparator := ")+("

  /** The rewriting of an expression before it is read, in the source's order:
      drop the combined identifier, turn both unit literals into `1`, drop the
      zero literal `+[]`. Every step only removes text or puts a unit in place
      of a longer literal, so the result is no longer than the expression and
      holds no character the expression lacks, besides units. */
  function Normalise(expr: string, id: string): (r: string)
    requires |id| > 0
    ensures |r| <= |expr|
    ensures forall c :: c in r ==> c in expr || c == Unit
  {
    var dropped := Replace(expr, id, "");
    var ones := Replace(dropped, "!+[]", "1");
    var units := Replace(ones, "!![]", "1");
    ReplaceShorter(expr, id, "");
    ReplaceShorter(dropped, "!+[]", "1");
    ReplaceShorter(ones, "!![]", "1");
    ReplaceShorter(units, "+[]", "");
    ReplaceChars(expr, id, "");
    ReplaceChars(dropped, "!+[]", "1");
    ReplaceChars(ones, "!![]", "1");
    ReplaceChars(units, "+[]", "");
    Replace(units, "+[]", "")
  }

  /** The operand of an expression without parentheses: its number of units,
      zero exactly when it holds none, its length when it holds nothing else. */
  function UniqueValue(n: string): (r: nat)
    ensures r <= |n|
    ensures r == 0 <==> Unit !in n
    ensures (forall i :: 0 <= i < |n| ==> n[i] == Unit) ==> r == |n|
  {
    CountOnly(n, Unit);
    Count(n, Unit)
  }

  /** The number of units in each `)+(`-separated group, in order. */
  function GroupCounts(n: string): (counts: seq<nat>)
    ensures |counts| == |Split(n, GroupSeparator)| >= 1
  {
    var groups := Split(n, GroupSeparator);
    seq(|groups|, k requires 0 <= k < |groups| => Count(groups[k], Unit))
  }

  /** The decimal strings of the counts, concatenated in order. */
  function DigitString(counts: seq<nat>): (s: string)
    ensures IsDigits(s)
    ensures counts != [] ==> s != []
  {
    if counts == [] then ""
    else
      var init := DigitString(counts[..|counts| - 1]);
      DigitsConcat(init, NatToDecimal(counts[|counts| - 1]));
      init + NatToDecimal(counts[|counts| - 1])
  }

  /** One more count appends its decimal string. */
  lemma DigitStringSnoc(counts: seq<nat>, n: nat)
    requires n < |counts|
    ensures DigitString(counts[..n + 1]) == DigitString(counts[..n]) + NatToDecimal(counts[n])
  {
    assert counts[..n + 1][..n] == counts[..n];
  }

  /** The operand of an expression with parentheses: the digit string of its
      groups read as one decimal number. When every group has fewer than ten
      units, each group is one decimal digit, the first the most significant;
      without a separator, the reading is the plain unit count, so the path
      without parentheses is the one-group case of this one. */
  function GroupsValue(n: string): (r: nat)
    ensures (forall k :: 0 <= k < |GroupCounts(n)| ==> GroupCounts(n)[k] < 10) ==>
      r == DigitsValue(GroupCounts(n))
    ensures IndexOf(n, GroupSeparator, 0).None? ==> r == UniqueValue(n)
  {
    GroupsReading(n);
    ParseDecimal(DigitString(GroupCounts(n)))
  }

  /** The two readings of the digit string that `GroupsValue` promises. */
  lemma {:induction false} GroupsReading(n: string)
    ensures (forall k :: 0 <= k < |GroupCounts(n)| ==> GroupCounts(n)[k] < 10) ==>
      ParseDecimal(DigitString(GroupCounts(n))) == DigitsValue(GroupCounts(n))
    ensures IndexOf(n, GroupSeparator, 0).None? ==>
      ParseDecimal(DigitString(GroupCounts(n))) == Count(n, Unit)
  {
    if forall k :: 0 <= k < |GroupCounts(n)| ==> GroupCounts(n)[k] < 10 {
      DigitStringValue(GroupCounts(n));
    }
    if IndexOf(n, GroupSeparator, 0).None? {
      SplitAbsent(n, GroupSeparator);
      var c := Count(n, Unit);
      assert GroupCounts(n) == [c];
      assert DigitString([c]) == DigitString([]) + NatToDecimal(c);
      assert DigitString([c]) == NatToDecimal(c);
      ParseNatToDecimal(c);
    }
  }

  /** The operand, by the path `ParseExpression` takes on the normalised text:
      whichever path is taken, it is the grouped reading of the text. */
  function OperandValue(n: string): (r: nat)
    ensures r == GroupsValue(n)
    ensures '(' !in n ==> r == Count(n, Unit)
  {
    if '(' in n then GroupsValue(n)
    else
      UniqueAgreesWithGroups(n);
      UniqueValue(n)
  }

  datatype Decoded = Decoded(token: string, operand: nat)

  /** `ParseExpression`: the operator token is the first two characters of the
      normalised text (reading index 1 of a shorter text is an error), the
      operand is decoded from that same text. */
  function Decode(expr: string, id: string): (r: Result<Decoded>)
    requires |id| > 0
    ensures r.Err? <==> |Normalise(expr, id)| < 2
    ensures r.Err? ==> r.failure == ExpressionTooShort
    ensures r.Ok? ==> |r.value.token| == 2 && r.value.token == Normalise(expr, id)[..2]
  {
    var n := Normalise(expr, id);
    if |n| < 2 then Err(ExpressionTooShort) else Ok(Decoded(n[..2], OperandValue(n)))
  }

  /** The value of digits read most significant first. */
  function DigitsValue(ds: seq<nat>): nat {
    if ds == [] then 0 else DigitsValue(ds[..|ds| - 1]) * 10 + ds[|ds| - 1]
  }

  /** When every group has fewer than ten units, each group is one decimal
      digit of the operand, the first group the most significant. */
  lemma {:induction false} DigitStringValue(counts: seq<nat>)
    requires forall k :: 0 <= k < |counts| ==> counts[k] < 10
    ensures |DigitString(counts)| == |counts|
    ensures ParseDecimal(DigitString(counts)) == DigitsValue(counts)
    decreases |counts|
  {
    if counts != [] {
      var init := counts[..|counts| - 1];
      var d := counts[|counts| - 1];
      DigitStringValue(init);
      ParseDecimalConcat(DigitString(init), NatToDecimal(d));
      ParseNatToDecimal(d);
    }
  }

  /** A text with no `(` contains no separator either, so both readings agree on it. */
  lemma UniqueAgreesWithGroups(n: string)
    requires '(' !in n
    ensures UniqueValue(n) == GroupsValue(n)
  {
    if IndexOf(n, GroupSeparator, 0).Some? {
      var i := IndexOf(n, GroupSeparator, 0).value;
      IndexOfFirst(n, GroupSeparator, 0);
      MatchAtIndex(n, GroupSeparator, i, 2);
      assert false;
    }
  }

  /** The multi-digit case left open by the format: a group of ten units is
      written as the two characters `10`, so groups of 1 and 10 units read 110,
      not the 20 that one-digit-per-group would give. */
  lemma WideGroup()
    ensures ParseDecimal(DigitString([1, 10])) == 110
    ensures DigitsValue([1, 10]) == 20
  {
    assert DigitString([1]) == DigitString([]) + NatToDecimal(1);
    assert [1, 10][..1] == [1];
    assert DigitString([1, 10]) == DigitString([1]) + NatToDecimal(10);
    assert NatToDecimal(10) == NatToDecimal(1) + [DigitChar(0)];
    assert DigitString([1, 10]) == "110";
    assert "110"[..2] == "11" && "11"[..1] == "1" && "1"[..0] == "";
  }

  /** Groups of 1, 2 and 3 units read 123. */
  lemma ThreeGroups()
    ensures ParseDecimal(DigitString([1, 2, 3])) == 123
  {
    DigitStringValue([1, 2, 3]);
    assert [1, 2, 3][..2] == [1, 2] && [1, 2][..1] == [1] && [1][..0] == [];
  }

  predicate IsKnownOperator(token: string) {
    token == "+=" || token == "-=" || token == "*=" || token == "/="
  }

  function Abs(x: int): nat { if x < 0 then -x else x }

  /** C#'s `/` on integers: the quotient rounded toward zero, so the remainder
      has the sign of the dividend and is smaller than the divisor. */
  function TruncDiv(a: int, b: int): (q: int)
    requires b != 0
    ensures Abs(q) == Abs(a) / Abs(b)
    ensures q < 0 ==> (a < 0) != (b < 0)
    ensures q > 0 ==> (a < 0) == (b < 0)
  {
    DivNonNegative(Abs(a), Abs(b));
    if (a < 0) == (b < 0) then Abs(a) / Abs(b) else -(Abs(a) / Abs(b))
  }

  datatype Applied = Applied(value: int, unknown: bool)

  /** `PerformOpeartion`: the four known tokens update the accumulator (division
      by zero is an error); any other token keeps it and raises the flag. */
  function Perform(value: int, token: string, operand: int): (r: Result<Applied>)
    ensures r.Err? <==> token == "/=" && operand == 0
    ensures r.Err? ==> r.failure == DivideByZero
    ensures r.Ok? ==> (r.value.unknown <==> !IsKnownOperator(token))
    ensures r.Ok? && !IsKnownOperator(token) ==> r.value.value == value
  {
    if token == "-=" then Ok(Applied(value - operand, false))
    else if token == "+=" then Ok(Applied(value + operand, false))
    else if token == "*=" then Ok(Applied(value * operand, false))
    else if token == "/=" then
      if operand == 0 then Err(DivideByZero) else Ok(Applied(TruncDiv(value, operand), false))
    else Ok(Applied(value, true))
  }

  lemma MulAtLeast(b: nat, k: int)
    requires k >= 1
    ensures b * k >= b
  {
    var j := k - 1;
    assert b * k == b * j + b;
  }

  lemma DivNonNegative(x: nat, y: nat)
    requires y > 0
    ensures x / y >= 0
  {
    var q, r := x / y, x % y;
    assert y * q + r == x;
    if q < 0 {
      MulAtLeast(y, -q);
      assert false;
    }
  }

  lemma MulDivCancel(a: nat, b: nat)
    requires b > 0
    ensures a * b / b == a
  {
    var q, r := a * b / b, a * b % b;
    assert b * q + r == a * b;
    assert b * (a - q) == r by {
      assert b * (a - q) == b * a - b * q;
    }
    if a - q >= 1 {
      MulAtLeast(b, a - q);
    } else if q - a >= 1 {
      MulAtLeast(b, q - a);
    }
  }

  lemma AbsMul(v: int, x: int)
    ensures Abs(v * x) == Abs(v) * Abs(x)
    ensures v * x < 0 <==> (v < 0) != (x < 0) && v != 0 && x != 0
  {
    if v < 0 && x < 0 { assert v * x == (-v) * (-x); }
    else if v < 0 { assert -(v * x) == (-v) * x; }
    else if x < 0 { assert -(v * x) == v * (-x); }
  }

  /** Dividing an exact multiple gives the factor back, whatever the signs. */
  lemma TruncDivExact(v: int, x: int)
    requires x != 0
    ensures TruncDiv(v * x, x) == v
  {
    AbsMul(v, x);
    MulDivCancel(Abs(v), Abs(x));
  }

  /** `-=` undoes `+=`, and `/=` undoes `*=` by a non-zero operand. */
  lemma PerformInverse(v: int, x: int)
    ensures Perform(v, "+=", x).Ok? && Perform(Perform(v, "+=", x).value.value, "-=", x) == Ok(Applied(v, false))
    ensures x != 0 ==> Perform(v, "*=", x).Ok? && Perform(Perform(v, "*=", x).value.value, "/=", x) == Ok(Applied(v, false))
  {
    if x != 0 {
      TruncDivExact(v, x);
    }
  }
}
