/** The challenge's own notation written out: statements in the form the
    challenge page uses, built from an operator token and a number, and the
    proof that the solver reads them back. */
module Encoding {
  import opened Strings
  import opened Failures
  import opened Decoding
  import opened Solver

  /** `k` without parentheses: `+[]` for zero, otherwise `!+[]` followed by
      `+!![]` for each further unit. */
  function Units(k: nat): string {
    if k == 0 then "+[]" else "!+[]" + MoreUnits(k - 1)
  }

  /** `+!![]`, `j` times. */
  function MoreUnits(j: nat): string {
    if j == 0 then "" else "+!![]" + MoreUnits(j - 1)
  }

  /** `+1`, `j` times: what normalisation makes of `MoreUnits(j)`. */
  function PlusOnes(j: nat): string {
    if j == 0 then "" else "+1" + PlusOnes(j - 1)
  }

  /** A character that does not interfere with reading a statement: not the
      identifier's '.', not a unit, not a group's '(', not the terminator. */
  predicate Plain(c: char) {
    c != '.' && c != ']' && c != '1' && c != '(' && c != ';'
  }

  /** A two-character operator token that none of the rewritings can reach into. */
  predicate Token(op: string) {
    |op| == 2 && Plain(op[0]) && Plain(op[1]) && op[1] != '!' && op[1] != '+' && op[1] != '['
  }

  /** One statement of the chain: the combined identifier, the operator
      token, the operand in units, the ';'. */
  function Statement(id: string, op: string, k: nat): string {
    id + (op + (Units(k) + ";"))
  }

  /** The statement once normalised: the token, one `1` per unit, the ';'. */
  function Normalised(op: string, k: nat): string {
    if k == 0 then op + ";" else op + ("1" + (PlusOnes(k - 1) + ";"))
  }

  lemma {:induction false} TokenAvoids(op: string, c: char)
    requires Token(op) && !Plain(c)
    ensures c !in op
  {
    assert op == [op[0], op[1]];
  }

  lemma {:induction false} MoreUnitsAvoid(j: nat, c: char)
    requires c != '!' && c != '+' && c != '[' && c != ']'
    ensures c !in MoreUnits(j)
    decreases j
  {
    if j > 0 {
      MoreUnitsAvoid(j - 1, c);
    }
  }

  lemma {:induction false} PlusOnesShape(j: nat)
    ensures ']' !in PlusOnes(j) && '(' !in PlusOnes(j)
    ensures Count(PlusOnes(j), Unit) == j
    decreases j
  {
    if j > 0 {
      PlusOnesShape(j - 1);
      CountConcat("+1", PlusOnes(j - 1), Unit);
      assert "+1"[..1] == "+";
    }
  }

  lemma {:induction false} ReplaceFirstUnit()
    ensures Replace("+!![]", "!+[]", "1") == "+!![]"
  {
    var s := "+!![]";
    assert s[..4][0] == '+';
    assert s[1..] == "!![]";
    assert s[1..][..4][1] == '!';
    assert s[1..][1..] == "![]";
  }

  lemma {:induction false} ReplaceSecondUnit()
    ensures Replace("+!![]", "!![]", "1") == "+1"
  {
    var s := "+!![]";
    assert s[..4][0] == '+';
    assert s[1..] == "!![]";
    assert s[1..][..4] == "!![]" && s[1..][4..] == "";
  }

  lemma {:induction false} ReplaceZero()
    ensures Replace("+[];", "+[]", "") == ";"
  {
    var s := "+[];";
    assert s[..3] == "+[]" && s[3..] == ";";
  }

  /** `!+[]` never occurs in the further units. */
  lemma {:induction false} MoreUnitsKeepFirst(j: nat)
    ensures Replace(MoreUnits(j) + ";", "!+[]", "1") == MoreUnits(j) + ";"
    decreases j
  {
    if j > 0 {
      var rest := MoreUnits(j - 1) + ";";
      ConcatAssoc("+!![]", MoreUnits(j - 1), ";");
      NoStraddleByLast("+!![]", rest, "!+[]");
      ReplaceConcat("+!![]", rest, "!+[]", "1");
      ReplaceFirstUnit();
      MoreUnitsKeepFirst(j - 1);
    }
  }

  /** Each further unit `+!![]` becomes `+1`. */
  lemma {:induction false} MoreUnitsToOnes(j: nat)
    ensures Replace(MoreUnits(j) + ";", "!![]", "1") == PlusOnes(j) + ";"
    decreases j
  {
    if j > 0 {
      var rest := MoreUnits(j - 1) + ";";
      ConcatAssoc("+!![]", MoreUnits(j - 1), ";");
      NoStraddleByLast("+!![]", rest, "!![]");
      ReplaceConcat("+!![]", rest, "!![]", "1");
      ReplaceSecondUnit();
      MoreUnitsToOnes(j - 1);
      ConcatAssoc("+1", PlusOnes(j - 1), ";");
    }
  }

  /** A token is too short for any of the rewritings and is left as it is,
      and no occurrence starts inside it. */
  lemma {:induction false} TokenPrefix(op: string, b: string, pat: string, rep: string)
    requires Token(op) && (pat == Rewrite1 || pat == Rewrite2 || pat == Rewrite3)
    ensures Replace(op + b, pat, rep) == op + Replace(b, pat, rep)
  {
    NoStraddleByLast(op, b, pat);
    ReplaceConcat(op, b, pat, rep);
  }

  const Rewrite1 := "!+[]"
  const Rewrite2 := "!![]"
  const Rewrite3 := "+[]"

  /** Dropping the identifier at the head of a statement leaves the rest,
      which holds no '.'. */
  lemma {:induction false} DropIdentifier(id: string, op: string, k: nat)
    requires '.' in id && Token(op)
    ensures Replace(Statement(id, op, k), id, "") == op + (Units(k) + ";")
  {
    var body := op + (Units(k) + ";");
    ReplaceAtHead(id, body, "");
    TokenAvoids(op, '.');
    UnitsAvoid(k, '.');
    AbsentConcat(op, Units(k) + ";", '.');
    ReplaceAbsent(body, id, "", '.');
  }

  /** The rewritings of the zero operand: `+[]` is dropped. */
  lemma {:induction false} ZeroRewrites(op: string)
    requires Token(op)
    ensures Replace(Replace(Replace(op + "+[];", Rewrite1, "1"), Rewrite2, "1"), Rewrite3, "") == op + ";"
  {
    TokenPrefix(op, "+[];", Rewrite1, "1");
    ReplaceAbsent("+[];", Rewrite1, "1", '!');
    TokenPrefix(op, "+[];", Rewrite2, "1");
    ReplaceAbsent("+[];", Rewrite2, "1", '!');
    TokenPrefix(op, "+[];", Rewrite3, "");
    ReplaceZero();
  }

  /** The first rewriting turns the leading `!+[]` into `1`. */
  lemma {:induction false} FirstRewrite(op: string, j: nat)
    requires Token(op)
    ensures Replace(op + (Units(j + 1) + ";"), Rewrite1, "1") == op + ("1" + (MoreUnits(j) + ";"))
  {
    var m := MoreUnits(j) + ";";
    assert Units(j + 1) + ";" == Rewrite1 + m;
    TokenPrefix(op, Rewrite1 + m, Rewrite1, "1");
    MoreUnitsKeepFirst(j);
    assert (Rewrite1 + m)[..4] == Rewrite1 && (Rewrite1 + m)[4..] == m;
  }

  /** The second rewriting turns each further `!![]` into `1`. */
  lemma {:induction false} SecondRewrite(op: string, j: nat)
    requires Token(op)
    ensures Replace(op + ("1" + (MoreUnits(j) + ";")), Rewrite2, "1") == op + ("1" + (PlusOnes(j) + ";"))
  {
    var m := MoreUnits(j) + ";";
    TokenPrefix(op, "1" + m, Rewrite2, "1");
    NoStraddleByLast("1", m, Rewrite2);
    ReplaceConcat("1", m, Rewrite2, "1");
    MoreUnitsToOnes(j);
  }

  /** The third rewriting finds no `+[]` left. */
  lemma {:induction false} ThirdRewrite(op: string, j: nat)
    requires Token(op)
    ensures Replace(op + ("1" + (PlusOnes(j) + ";")), Rewrite3, "") == op + ("1" + (PlusOnes(j) + ";"))
  {
    TokenAvoids(op, ']');
    PlusOnesShape(j);
    ReplaceAbsent(op + ("1" + (PlusOnes(j) + ";")), Rewrite3, "", ']');
  }

  lemma {:induction false} NormaliseZero(id: string, op: string)
    requires '.' in id && Token(op)
    ensures Normalise(Statement(id, op, 0), id) == op + ";"
  {
    DropIdentifier(id, op, 0);
    assert Units(0) + ";" == "+[];";
    ZeroRewrites(op);
  }

  lemma {:induction false} NormaliseUnits(id: string, op: string, j: nat)
    requires '.' in id && Token(op)
    ensures Normalise(Statement(id, op, j + 1), id) == op + ("1" + (PlusOnes(j) + ";"))
  {
    DropIdentifier(id, op, j + 1);
    FirstRewrite(op, j);
    SecondRewrite(op, j);
    ThirdRewrite(op, j);
  }

  /** Normalising a statement leaves the token, one `1` per unit and the ';'. */
  lemma {:induction false} NormaliseStatement(id: string, op: string, k: nat)
    requires '.' in id && Token(op)
    ensures Normalise(Statement(id, op, k), id) == Normalised(op, k)
  {
    if k == 0 {
      NormaliseZero(id, op);
    } else {
      NormaliseUnits(id, op, k - 1);
    }
  }

  /** The normalised statement: its first two characters are the token, it
      has no '(', and it holds one `1` per unit. */
  lemma {:induction false} NormalisedShape(op: string, k: nat)
    requires Token(op)
    ensures var n := Normalised(op, k);
      |n| >= 2 && n[..2] == op && '(' !in n && Count(n, Unit) == k
  {
    TokenAvoids(op, '(');
    TokenAvoids(op, '1');
    if k == 0 {
      TokenHead(op, ";", 0);
    } else {
      OnesShape(k - 1);
      TokenHead(op, "1" + (PlusOnes(k - 1) + ";"), k);
    }
  }

  /** A text after the token leaves the token at the head. */
  lemma {:induction false} TokenHead(op: string, t: string, k: nat)
    requires Token(op) && '(' !in op && Unit !in op && '(' !in t && Count(t, Unit) == k
    ensures |op + t| >= 2 && (op + t)[..2] == op && '(' !in op + t && Count(op + t, Unit) == k
  {
    CountConcat(op, t, Unit);
    assert (op + t)[..2] == op;
  }

  lemma {:induction false} OnesShape(j: nat)
    ensures '(' !in ";" && Count(";", Unit) == 0
    ensures '(' !in "1" + (PlusOnes(j) + ";")
    ensures Count("1" + (PlusOnes(j) + ";"), Unit) == j + 1
  {
    var t := PlusOnes(j) + ";";
    PlusOnesShape(j);
    CountConcat("1", t, Unit);
    CountConcat(PlusOnes(j), ";", Unit);
    assert "1"[..0] == "";
  }

  /** Round trip: decoding a statement gives back its token and its number. */
  lemma {:induction false} DecodeStatement(id: string, op: string, k: nat)
    requires '.' in id && Token(op)
    ensures Decode(Statement(id, op, k), id) == Ok(Decoded(op, k))
  {
    NormaliseStatement(id, op, k);
    NormalisedShape(op, k);
  }

  /** An identifier the loop can find its statements by: it has the '.'
      between object and member names, no ';', and does not start blank. */
  predicate Identifier(id: string) {
    |id| > 0 && !IsWhiteSpace(id[0]) && '.' in id && ';' !in id
  }

  lemma {:induction false} UnitsAvoid(k: nat, c: char)
    requires c != '!' && c != '+' && c != '[' && c != ']'
    ensures c !in Units(k)
  {
    if k > 0 {
      MoreUnitsAvoid(k - 1, c);
    }
  }

  /** A statement starts with the identifier's first character, so not
      blank, and its only ';' is the last character. */
  lemma {:induction false} StatementShape(id: string, op: string, k: nat)
    requires Identifier(id) && Token(op)
    ensures Terminated(Statement(id, op, k))
  {
    var st := Statement(id, op, k);
    TokenAvoids(op, ';');
    UnitsAvoid(k, ';');
    var head := id + (op + Units(k));
    assert st == head + ";";
    forall i | 0 <= i < |st| - 1
      ensures st[i] != ';'
    {
      assert st[i] == head[i];
    }
  }

  /** Text that does not start blank and whose only ';' is its last character. */
  predicate Terminated(st: string) {
    |st| > 0 && !IsWhiteSpace(st[0]) && st[|st| - 1] == ';' &&
    forall i :: 0 <= i < |st| - 1 ==> st[i] != ';'
  }

  /** Terminated text found at the cursor: the loop's next cursor is just
      past it and it reads unchanged. */
  lemma {:induction false} ReadAt(page: string, c: nat, st: string) returns (e: nat)
    requires MatchAt(page, st, c) && Terminated(st)
    ensures e == c + |st| && e <= |page| && TerminatorEnd(page, c) == e
    ensures Trim(page[c..e]) == st
  {
    e := c + |st|;
    MatchAtSlice(page, st, c);
    forall i | c <= i < c + |st|
      ensures page[i] == st[i - c]
    {
      assert page[c..c + |st|][i - c] == page[i];
    }
    IndexOfCharAt(page, ';', c, c + |st| - 1);
    TrimUnchanged(st);
  }

  /** One step of the chain: an operator token and the number it applies. */
  datatype Step = Step(op: string, operand: nat)

  /** The chain's statements, one after another. */
  function Text(id: string, steps: seq<Step>): string
    decreases |steps|
  {
    if steps == [] then "" else Statement(id, steps[0].op, steps[0].operand) + Text(id, steps[1..])
  }

  predicate NoZeroDivisor(steps: seq<Step>) {
    forall i :: 0 <= i < |steps| ==> !(steps[i].op == "/=" && steps[i].operand == 0)
  }

  /** The running value after the steps, each applied as `PerformOpeartion` does. */
  function Fold(v: int, steps: seq<Step>): int
    requires NoZeroDivisor(steps)
    decreases |steps|
  {
    if steps == [] then v
    else Fold(Perform(v, steps[0].op, steps[0].operand).value.value, steps[1..])
  }

  /** A chain the loop runs to its end: known operators, then one unknown
      operator that stops it, and no division by zero. */
  predicate Chain(steps: seq<Step>) {
    |steps| > 0 && NoZeroDivisor(steps) &&
    (forall i :: 0 <= i < |steps| ==> Token(steps[i].op)) &&
    (forall i :: 0 <= i < |steps| - 1 ==> IsKnownOperator(steps[i].op)) &&
    !IsKnownOperator(steps[|steps| - 1].op)
  }

  lemma {:induction false} ChainTail(steps: seq<Step>)
    requires Chain(steps) && |steps| > 1
    ensures Chain(steps[1..]) && IsKnownOperator(steps[0].op) && Token(steps[0].op)
    ensures steps[1..][|steps[1..]| - 1] == steps[|steps| - 1]
  {
    assert forall i :: 0 <= i < |steps| - 1 ==> steps[1..][i] == steps[i + 1];
  }

  /** A written-out chain is its first statement followed by the rest, which
      starts at `e`. */
  lemma {:induction false} ChainCut(page: string, id: string, c: nat, steps: seq<Step>) returns (e: nat)
    requires |steps| > 0 && MatchAt(page, Text(id, steps), c)
    ensures e == c + |Statement(id, steps[0].op, steps[0].operand)|
    ensures MatchAt(page, Statement(id, steps[0].op, steps[0].operand), c)
    ensures MatchAt(page, Text(id, steps[1..]), e) && c + |Text(id, steps)| == e + |Text(id, steps[1..])|
  {
    var st := Statement(id, steps[0].op, steps[0].operand);
    var rest := Text(id, steps[1..]);
    assert Text(id, steps) == st + rest;
    MatchAtConcat(page, st, rest, c);
    e := c + |st|;
  }

  /** The same cut, seen by the loop: it reads the first statement up to its
      ';' at `e`, and that text decodes to the first step. */
  lemma {:induction false} ChainSplit(page: string, id: string, c: nat, steps: seq<Step>) returns (e: nat)
    requires Identifier(id) && Chain(steps) && MatchAt(page, Text(id, steps), c)
    ensures c <= e <= |page| && TerminatorEnd(page, c) == e
    ensures Decode(Trim(page[c..e]), id) == Ok(Decoded(steps[0].op, steps[0].operand))
    ensures MatchAt(page, Text(id, steps[1..]), e) && c + |Text(id, steps)| == e + |Text(id, steps[1..])|
  {
    e := ChainCut(page, id, c, steps);
    var end := StatementReads(page, id, c, steps[0].op, steps[0].operand);
    assert end == e;
  }

  /** The loop reads a statement at the cursor up to its ';' at `e`, and
      that text decodes to the statement's token and number. */
  lemma {:induction false} StatementReads(page: string, id: string, c: nat, op: string, k: nat) returns (e: nat)
    requires Identifier(id) && Token(op)
    requires MatchAt(page, Statement(id, op, k), c)
    ensures e == c + |Statement(id, op, k)| && e <= |page| && TerminatorEnd(page, c) == e
    ensures Decode(Trim(page[c..e]), id) == Ok(Decoded(op, k))
  {
    StatementShape(id, op, k);
    DecodeStatement(id, op, k);
    e := ReadDecodes(page, id, c, Statement(id, op, k), Decoded(op, k));
  }

  /** Terminated text at the cursor that decodes to `d`: the loop's next cursor
      is just past it, and the text it reads there decodes to `d` too. */
  lemma {:induction false} ReadDecodes(page: string, id: string, c: nat, st: string, d: Decoded) returns (e: nat)
    requires |id| > 0 && MatchAt(page, st, c) && Terminated(st) && Decode(st, id) == Ok(d)
    ensures e == c + |st| && e <= |page| && TerminatorEnd(page, c) == e
    ensures Decode(Trim(page[c..e]), id) == Ok(d)
  {
    e := ReadAt(page, c, st);
  }

  /** The loop's first pass over a chain reads its first statement and
      leaves the cursor at the rest of the chain, with the value updated by
      the first step. */
  lemma {:induction false} ChainHead(page: string, id: string, c: nat, steps: seq<Step>, v: int, t: string)
    returns (e: nat, w: int)
    requires Identifier(id) && Chain(steps) && MatchAt(page, Text(id, steps), c)
    ensures e <= |page| && MatchAt(page, Text(id, steps[1..]), e)
    ensures c + |Text(id, steps)| == e + |Text(id, steps[1..])|
    ensures Perform(v, steps[0].op, steps[0].operand) == Ok(Applied(w, !IsKnownOperator(steps[0].op)))
    ensures Run(page, id, Machine(c, v, t, false)) ==
      Run(page, id, Machine(e, w, steps[0].op, !IsKnownOperator(steps[0].op)))
  {
    var s0 := steps[0];
    e := ChainSplit(page, id, c, steps);
    assert !(s0.op == "/=" && s0.operand == 0);
    var a := Perform(v, s0.op, s0.operand).value;
    w := a.value;
    RunStep(page, id, Machine(c, v, t, false), e, Decoded(s0.op, s0.operand), a);
  }

  /** The same first pass, with the running value the rest of the chain
      folds from. */
  lemma {:induction false} ChainNext(page: string, id: string, c: nat, steps: seq<Step>, v: int, t: string)
    returns (e: nat, w: int)
    requires Identifier(id) && Chain(steps) && MatchAt(page, Text(id, steps), c)
    ensures e <= |page| && MatchAt(page, Text(id, steps[1..]), e)
    ensures c + |Text(id, steps)| == e + |Text(id, steps[1..])|
    ensures NoZeroDivisor(steps[1..]) && Fold(v, steps) == Fold(w, steps[1..])
    ensures Run(page, id, Machine(c, v, t, false)) ==
      Run(page, id, Machine(e, w, steps[0].op, !IsKnownOperator(steps[0].op)))
  {
    e, w := ChainHead(page, id, c, steps, v, t);
    FoldHead(v, steps);
  }

  /** The statement loop over a written-out chain stops right after its last
      statement, with the running value the steps fold to, the last token
      recorded and the flag raised. */
  lemma {:induction false} RunChain(page: string, id: string, c: nat, steps: seq<Step>, v: int, t: string)
    requires Identifier(id) && Chain(steps) && MatchAt(page, Text(id, steps), c)
    ensures Run(page, id, Machine(c, v, t, false)) ==
      Halt(Machine(c + |Text(id, steps)|, Fold(v, steps), steps[|steps| - 1].op, true), None)
    decreases |steps|
  {
    if |steps| == 1 {
      ChainLast(page, id, c, steps, v, t);
    } else {
      var e, w := ChainStep(page, id, c, steps, v, t);
      RunChain(page, id, e, steps[1..], w, steps[0].op);
    }
  }

  /** The chain's last statement raises the flag and keeps the value. */
  lemma {:induction false} ChainLast(page: string, id: string, c: nat, steps: seq<Step>, v: int, t: string)
    requires Identifier(id) && Chain(steps) && MatchAt(page, Text(id, steps), c) && |steps| == 1
    ensures Run(page, id, Machine(c, v, t, false)) ==
      Halt(Machine(c + |Text(id, steps)|, Fold(v, steps), steps[|steps| - 1].op, true), None)
  {
    var e, w := ChainNext(page, id, c, steps, v, t);
    assert steps[1..] == [];
    RunHalted(page, id, Machine(e, w, steps[0].op, true));
  }

  /** A known operator hands the rest of the chain the cursor after its
      statement and the updated value; where the rest of the chain stops, the
      whole chain stops. */
  lemma {:induction false} ChainStep(page: string, id: string, c: nat, steps: seq<Step>, v: int, t: string)
    returns (e: nat, w: int)
    requires Identifier(id) && Chain(steps) && MatchAt(page, Text(id, steps), c) && |steps| > 1
    ensures Chain(steps[1..]) && MatchAt(page, Text(id, steps[1..]), e)
    ensures (Run(page, id, Machine(e, w, steps[0].op, false)) ==
        Halt(Machine(e + |Text(id, steps[1..])|, Fold(w, steps[1..]), steps[1..][|steps[1..]| - 1].op, true), None))
      ==> (Run(page, id, Machine(c, v, t, false)) ==
        Halt(Machine(c + |Text(id, steps)|, Fold(v, steps), steps[|steps| - 1].op, true), None))
  {
    e, w := ChainNext(page, id, c, steps, v, t);
    ChainTail(steps);
    JoinStep(page, id, Machine(c, v, t, false), Machine(e, w, steps[0].op, false),
      |Text(id, steps)|, |Text(id, steps[1..])|, Fold(v, steps), Fold(w, steps[1..]), steps[|steps| - 1].op);
  }

  /** Two loop states with the same outcome, abstractly. */
  lemma {:induction false} JoinStep(page: string, id: string, m0: Machine, m1: Machine,
                                    all: nat, rest: nat, v0: int, v1: int, last: string)
    requires m0.cursor <= |page| && m1.cursor <= |page| && |id| > 0
    requires Run(page, id, m0) == Run(page, id, m1)
    requires m0.cursor + all == m1.cursor + rest && v0 == v1
    ensures Run(page, id, m1) == Halt(Machine(m1.cursor + rest, v1, last, true), None) ==>
      Run(page, id, m0) == Halt(Machine(m0.cursor + all, v0, last, true), None)
  {
  }

  lemma {:induction false} FoldHead(v: int, steps: seq<Step>)
    requires NoZeroDivisor(steps) && |steps| > 0
    ensures Perform(v, steps[0].op, steps[0].operand).Ok?
    ensures Fold(v, steps) == Fold(Perform(v, steps[0].op, steps[0].operand).value.value, steps[1..])
    ensures |steps| == 1 ==> Fold(v, steps) == Perform(v, steps[0].op, steps[0].operand).value.value
  {
    assert !(steps[0].op == "/=" && steps[0].operand == 0);
  }

  /** `Solve` on a written-out chain: the answer is the value the steps fold
      the seed to, plus the host name's length, and no step fails. */
  lemma {:induction false} SolveChain(page: string, id: string, hostLength: nat, c: nat, steps: seq<Step>, v: int, t: string)
    requires Identifier(id) && Chain(steps) && MatchAt(page, Text(id, steps), c)
    ensures SolveSpec(page, id, hostLength, Machine(c, v, t, false)) ==
      Halt(Machine(c + |Text(id, steps)|, Fold(v, steps) + hostLength, steps[|steps| - 1].op, true), None)
  {
    RunChain(page, id, c, steps, v, t);
  }

  /** A seed of 5 followed by `+= 3`, `-= 1`, `*= 2` and a statement with an
      unknown operator. */
  const ExampleSteps := [Step("+=", 3), Step("-=", 1), Step("*=", 2), Step("?=", 9)]

  lemma ExampleFold()
    ensures Chain(ExampleSteps) && Fold(5, ExampleSteps) == 14
  {
    var steps := ExampleSteps;
    assert Chain(steps);
    assert steps[1..] == [Step("-=", 1), Step("*=", 2), Step("?=", 9)];
    assert steps[1..][1..] == [Step("*=", 2), Step("?=", 9)];
    assert steps[1..][1..][1..] == [Step("?=", 9)];
    assert steps[1..][1..][1..][1..] == [];
  }

  /** The example chain folds the seed to 14; with an eleven-character host
      name the answer is 25. */
  lemma ExampleChain(page: string, id: string, c: nat)
    requires Identifier(id) && MatchAt(page, Text(id, ExampleSteps), c)
    ensures SolveSpec(page, id, 11, Machine(c, 5, "", false)).final.value == 25
    ensures SolveSpec(page, id, 11, Machine(c, 5, "", false)).failure.None?
  {
    ExampleFold();
    SolveChain(page, id, 11, c, ExampleSteps, 5, "");
  }
}
