/** What the expression engine computes. An arithmetic expression is a tree;
    printed without spaces, with parentheses only where the tree has them,
    and within the stack capacity of both procedures, its conversion is
    the tree's postfix form, and evaluating that text gives its value. */
module ExpressionTheory {
  import opened Errors
  import opened Stacks
  import opened Expressions

  datatype Expr =
    | Num(digits: string)
    | Bin(op: char, left: Expr, right: Expr)
    | Group(inner: Expr)

  /** How tightly the top of `e` binds: a number or a parenthesised
      expression is atomic (3); an operation binds as its operator does. */
  function Level(e: Expr): (l: int)
    ensures 1 <= l <= 3 || (e.Bin? && l == Precedence(e.op))
  {
    match e
    case Bin(op, _, _) => Precedence(op)
    case _ => 3
  }

  /** Trees whose printing reads back as the same tree under the usual
      rules: a left operand binds at least as tightly as its operator
      (operators associate to the left), a right operand strictly more
      tightly. */
  predicate WellFormed(e: Expr) {
    match e
    case Num(d) => IsNumber(d)
    case Bin(op, l, r) =>
      && (op == '+' || op == '-' || op == '*' || op == '/')
      && Level(l) >= Precedence(op) && Level(r) > Precedence(op)
      && WellFormed(l) && WellFormed(r)
    case Group(x) => WellFormed(x)
  }

  /** The infix text of `e`, without spaces. */
  function Print(e: Expr): string {
    match e
    case Num(d) => d
    case Bin(op, l, r) => Print(l) + [op] + Print(r)
    case Group(x) => ['('] + Print(x) + [')']
  }

  /** The postfix tokens of `e`: operands first, then the operator. */
  function Postfix(e: Expr): seq<string> {
    match e
    case Num(d) => [d]
    case Bin(op, l, r) => Postfix(l) + Postfix(r) + [Single(op)]
    case Group(x) => Postfix(x)
  }

  predicate NoDivision(e: Expr) {
    match e
    case Num(_) => true
    case Bin(op, l, r) => op != '/' && NoDivision(l) && NoDivision(r)
    case Group(x) => NoDivision(x)
  }

  /** The integer value of `e`. */
  function Value(e: Expr): int
    requires WellFormed(e) && NoDivision(e)
  {
    match e
    case Num(d) => DecimalValue(d)
    case Bin(op, l, r) =>
      if op == '+' then Value(l) + Value(r)
      else if op == '-' then Value(l) - Value(r)
      else Value(l) * Value(r)
    case Group(x) => Value(x)
  }

  /** The operators still on the converter's stack once `e` has been read. */
  function Pending(e: Expr): seq<char> {
    match e
    case Bin(op, _, r) => [op] + Pending(r)
    case _ => []
  }

  /** The tokens emitted while `e` is read, before its pending operators. */
  function Emitted(e: Expr): seq<string> {
    match e
    case Num(d) => [d]
    case Bin(_, l, r) => Postfix(l) + Emitted(r)
    case Group(x) => Postfix(x)
  }

  /** The most characters reading `e` adds to the converter's stack. */
  function OperatorDepth(e: Expr): nat {
    match e
    case Num(_) => 0
    case Bin(_, l, r) => if OperatorDepth(l) > 1 + OperatorDepth(r) then OperatorDepth(l) else 1 + OperatorDepth(r)
    case Group(x) => 1 + OperatorDepth(x)
  }

  /** The most values evaluating `e` adds to the evaluator's stack. */
  function OperandDepth(e: Expr): nat {
    match e
    case Num(_) => 1
    case Bin(_, l, r) => if OperandDepth(l) > 1 + OperandDepth(r) then OperandDepth(l) else 1 + OperandDepth(r)
    case Group(x) => OperandDepth(x)
  }

  /** The pending operators all bind at least as tightly as `e`, so none is
      a `(` or a digit, and they leave in the order `Postfix` puts them. */
  lemma {:induction false} PendingFacts(e: Expr)
    requires WellFormed(e)
    ensures forall k :: 0 <= k < |Pending(e)| ==> Precedence(Pending(e)[k]) >= Level(e) && Precedence(Pending(e)[k]) >= 1
    ensures |Pending(e)| <= OperatorDepth(e)
    ensures Postfix(e) == Emitted(e) + Popped(Pending(e))
  {
    match e
    case Num(_) =>
    case Group(_) =>
    case Bin(op, l, r) =>
      PendingFacts(r);
      PoppedPrefix(op, Pending(r));
  }

  /** Popping `[c] + part` pops `part` first, then `c`. */
  lemma {:induction false} PoppedPrefix(c: char, part: seq<char>)
    ensures Popped([c] + part) == Popped(part) + [Single(c)]
    decreases |part|
  {
    var all := [c] + part;
    if part == [] {
      assert all == [c];
    } else {
      assert all[..|all| - 1] == [c] + part[..|part| - 1];
      PoppedPrefix(c, part[..|part| - 1]);
    }
  }

  /** The printed text is made of digits, operators and parentheses only. */
  lemma {:induction false} PrintChars(e: Expr)
    requires WellFormed(e)
    ensures forall k :: 0 <= k < |Print(e)| ==> IsDigit(Print(e)[k]) || Print(e)[k] in "+-*/()"
  {
    match e
    case Num(_) =>
    case Group(x) =>
      PrintChars(x);
    case Bin(op, l, r) =>
      PrintChars(l);
      PrintChars(r);
  }

  /** Reading `e` at index `i` of `s`, on a stack whose top binds less
      tightly than `e`, emits `Emitted(e)` and leaves `Pending(e)` on top of
      the stack, provided the stack does not overflow and no digit follows. */
  lemma {:induction false} ReadExpr(s: string, i: nat, j: nat, e: Expr, out: seq<string>, ops: seq<char>)
    requires WellFormed(e)
    requires j == i + |Print(e)| <= |s| && s[i..j] == Print(e)
    requires j == |s| || !IsDigit(s[j])
    requires ops == [] || Precedence(ops[|ops| - 1]) < Level(e)
    requires |ops| + OperatorDepth(e) <= DefaultCapacity
    ensures Convert(s, i, out, ops) == Convert(s, j, out + Emitted(e), ops + Pending(e))
    decreases e, 2
  {
    match e
    case Num(d) =>
      ReadNum(s, i, d, out, ops);
      assert ops + Pending(e) == ops;
    case Group(x) =>
      ReadGroup(s, i, j, x, out, ops);
      assert ops + Pending(e) == ops;
    case Bin(op, l, r) =>
      ReadBin(s, i, j, op, l, r, out, ops);
      assert out + Emitted(e) == out + Postfix(l) + Emitted(r);
      assert ops + Pending(e) == ops + [op] + Pending(r);
  }

  lemma ReadNum(s: string, i: nat, d: string, out: seq<string>, ops: seq<char>)
    requires IsNumber(d)
    requires i + |d| <= |s| && s[i..i + |d|] == d
    requires i + |d| == |s| || !IsDigit(s[i + |d|])
    ensures Convert(s, i, out, ops) == Convert(s, i + |d|, out + [d], ops)
  {
    assert s[i] == d[0];
    assert forall k :: i <= k < i + |d| ==> s[k] == d[k - i];
    DigitRunIs(s, i, |d|);
  }

  lemma {:induction false} ReadGroup(s: string, i: nat, j: nat, x: Expr, out: seq<string>, ops: seq<char>)
    requires WellFormed(x)
    requires j == i + |Print(Group(x))| <= |s| && s[i..j] == Print(Group(x))
    requires |ops| + OperatorDepth(Group(x)) <= DefaultCapacity
    ensures Convert(s, i, out, ops) == Convert(s, j, out + Postfix(x), ops)
    decreases Group(x), 1
  {
    var n := |Print(x)|;
    GroupParts(s, i, j, x);
    calc {
      Convert(s, i, out, ops);
      { ConvertOpen(s, i, out, ops); }
      Convert(s, i + 1, out, ops + ['(']);
      { ReadInner(s, i + 1, j, x, out, ops); }
      Convert(s, j, out + Postfix(x), ops);
    }
  }

  /** Where the inner expression and the parentheses of a group sit. */
  lemma GroupParts(s: string, i: nat, j: nat, x: Expr)
    requires j == i + |Print(Group(x))| <= |s| && s[i..j] == Print(Group(x))
    ensures j == i + |Print(x)| + 2
    ensures s[i] == '(' && s[i + 1..j - 1] == Print(x) && s[j - 1] == ')'
  {
    var n := |Print(x)|;
    var t := s[i..j];
    assert t == ['('] + Print(x) + [')'];
    assert s[i] == t[0];
    SliceOfSlice(s, i, j, 1, n + 1);
    assert t[1..n + 1] == Print(x);
    assert s[j - 1] == t[n + 1];
  }

  /** Reading a parenthesised expression after its `(` was pushed: the `)`
      pops what the inner expression left pending, then the `(`. */
  lemma {:induction false} ReadInner(s: string, i: nat, j: nat, x: Expr, out: seq<string>, ops: seq<char>)
    requires WellFormed(x)
    requires j == i + |Print(x)| + 1 <= |s| && s[i..j - 1] == Print(x) && s[j - 1] == ')'
    requires |ops| + 1 + OperatorDepth(x) <= DefaultCapacity
    ensures Convert(s, i, out, ops + ['(']) == Convert(s, j, out + Postfix(x), ops)
    decreases x, 3
  {
    ReadExpr(s, i, j - 1, x, out, ops + ['(']);
    CloseAfter(s, j - 1, x, out, ops);
  }

  /** The `)` after an inner expression pops exactly what it left pending,
      completing its postfix form, and then the `(`. */
  lemma CloseAfter(s: string, j: nat, x: Expr, out: seq<string>, ops: seq<char>)
    requires WellFormed(x)
    requires j < |s| && s[j] == ')'
    ensures Convert(s, j, out + Emitted(x), ops + ['('] + Pending(x)) == Convert(s, j + 1, out + Postfix(x), ops)
  {
    PendingFacts(x);
    CloseEmitsUpToOpen(out + Emitted(x), ops, Pending(x));
    assert out + Emitted(x) + Popped(Pending(x)) == out + Postfix(x);
    ConvertClose(s, j, out + Emitted(x), ops + ['('] + Pending(x), out + Postfix(x), ops + ['(']);
    assert (ops + ['('])[..|ops|] == ops;
  }

  lemma SliceOfSlice<X>(s: seq<X>, a: nat, b: nat, c: nat, d: nat)
    requires a <= b <= |s| && c <= d <= b - a
    ensures s[a..b][c..d] == s[a + c..a + d]
  {
    forall k | 0 <= k < d - c
      ensures s[a..b][c..d][k] == s[a + c + k]
    {
      assert s[a..b][c..d][k] == s[a..b][c + k];
    }
  }

  /** Where the parts of a printed operation sit in the text. */
  lemma {:induction false} BinParts(s: string, i: nat, m: nat, j: nat, op: char, l: Expr, r: Expr)
    requires j == i + |Print(Bin(op, l, r))| <= |s| && s[i..j] == Print(Bin(op, l, r))
    requires m == i + |Print(l)|
    ensures m < j && s[i..m] == Print(l) && s[m] == op
    ensures j == m + 1 + |Print(r)| && s[m + 1..j] == Print(r)
  {
    var t := s[i..j];
    assert t == Print(l) + [op] + Print(r);
    SliceOfSlice(s, i, j, 0, |Print(l)|);
    assert t[..|Print(l)|] == Print(l);
    assert s[m] == t[|Print(l)|] == op;
    SliceOfSlice(s, i, j, |Print(l)| + 1, |t|);
    assert t[|Print(l)| + 1..] == Print(r);
  }

  lemma {:induction false} ReadBin(s: string, i: nat, j: nat, op: char, l: Expr, r: Expr, out: seq<string>, ops: seq<char>)
    requires WellFormed(Bin(op, l, r))
    requires j == i + |Print(Bin(op, l, r))| <= |s| && s[i..j] == Print(Bin(op, l, r))
    requires j == |s| || !IsDigit(s[j])
    requires ops == [] || Precedence(ops[|ops| - 1]) < Precedence(op)
    requires |ops| + OperatorDepth(Bin(op, l, r)) <= DefaultCapacity
    ensures Convert(s, i, out, ops) == Convert(s, j, out + Postfix(l) + Emitted(r), ops + [op] + Pending(r))
    decreases Bin(op, l, r), 1
  {
    var m := i + |Print(l)|;
    BinParts(s, i, m, j, op, l, r);
    assert |ops| + OperatorDepth(l) <= DefaultCapacity && |ops| + 1 + OperatorDepth(r) <= DefaultCapacity;
    assert Level(r) > Precedence(op) && (ops + [op])[|ops + [op]| - 1] == op;
    ReadLeft(s, i, m, op, l, out, ops);
    ReadExpr(s, m + 1, j, r, out + Postfix(l), ops + [op]);
  }

  /** Reading the left operand and the operator of an operation: the
      operator pops what the left operand left pending and is pushed. */
  lemma {:induction false} ReadLeft(s: string, i: nat, m: nat, op: char, l: Expr, out: seq<string>, ops: seq<char>)
    requires WellFormed(l) && (op == '+' || op == '-' || op == '*' || op == '/') && Level(l) >= Precedence(op)
    requires m == i + |Print(l)| < |s| && s[i..m] == Print(l) && s[m] == op
    requires ops == [] || Precedence(ops[|ops| - 1]) < Precedence(op)
    requires |ops| + OperatorDepth(l) <= DefaultCapacity && |ops| < DefaultCapacity
    ensures Convert(s, i, out, ops) == Convert(s, m + 1, out + Postfix(l), ops + [op])
    decreases l, 3
  {
    ReadExpr(s, i, m, l, out, ops);
    OperatorAfter(s, m, op, l, out, ops);
  }

  /** The operator after a left operand pops exactly what that operand
      left pending, completing its postfix form, and is pushed. */
  lemma OperatorAfter(s: string, m: nat, op: char, l: Expr, out: seq<string>, ops: seq<char>)
    requires WellFormed(l) && Precedence(op) >= 1 && Level(l) >= Precedence(op)
    requires m < |s| && s[m] == op
    requires ops == [] || Precedence(ops[|ops| - 1]) < Precedence(op)
    requires |ops| < DefaultCapacity
    ensures Convert(s, m, out + Emitted(l), ops + Pending(l)) == Convert(s, m + 1, out + Postfix(l), ops + [op])
  {
    PendingFacts(l);
    PopExactly(out + Emitted(l), ops, Pending(l), Precedence(op));
    assert out + Emitted(l) + Popped(Pending(l)) == out + Postfix(l);
    ConvertOperator(s, m, out + Emitted(l), ops + Pending(l), out + Postfix(l), ops);
  }

  /** One step of the converter on a `(`. */
  lemma ConvertOpen(s: string, i: nat, out: seq<string>, ops: seq<char>)
    requires i < |s| && s[i] == '(' && |ops| < DefaultCapacity
    ensures Convert(s, i, out, ops) == Convert(s, i + 1, out, ops + ['('])
  {
  }

  /** One step of the converter on a `)` that finds its `(`. */
  lemma ConvertClose(s: string, i: nat, out: seq<string>, ops: seq<char>, out': seq<string>, ops': seq<char>)
    requires i < |s| && s[i] == ')'
    requires PopUntilOpen(out, ops) == (out', ops') && ops' != []
    ensures Convert(s, i, out, ops) == Convert(s, i + 1, out', ops'[..|ops'| - 1])
  {
  }

  /** One step of the converter on an operator that leaves room to push it. */
  lemma ConvertOperator(s: string, i: nat, out: seq<string>, ops: seq<char>, out': seq<string>, ops': seq<char>)
    requires i < |s| && Precedence(s[i]) >= 1
    requires PopWhileGeq(out, ops, Precedence(s[i])) == (out', ops') && |ops'| < DefaultCapacity
    ensures Convert(s, i, out, ops) == Convert(s, i + 1, out', ops' + [s[i]])
  {
  }

  // ---------------------------------------------------------------------
  // Evaluation

  /** The stack a run ends with, forgetting the steps it recorded. */
  function FinalStack(r: Result<(seq<int>, seq<EvalStep>)>): Result<seq<int>> {
    match r
    case Err(e) => Err(e)
    case Ok((stack, _)) => Ok(stack)
  }

  /** Evaluating the postfix tokens of `e` on `stack` leaves the stack with
      the value of `e` pushed, provided the stack does not overflow. */
  lemma {:induction false} EvalExpr(tokens: seq<string>, i: nat, j: nat, e: Expr, stack: seq<int>)
    requires WellFormed(e) && NoDivision(e)
    requires j == i + |Postfix(e)| <= |tokens| && tokens[i..j] == Postfix(e)
    requires |stack| + OperandDepth(e) <= DefaultCapacity
    ensures FinalStack(EvalFrom(tokens, i, stack)) == FinalStack(EvalFrom(tokens, j, stack + [Value(e)]))
    decreases e, 1
  {
    match e
    case Num(d) =>
      assert tokens[i] == d;
    case Group(x) =>
      EvalExpr(tokens, i, j, x, stack);
    case Bin(op, l, r) =>
      EvalBin(tokens, i, j, op, l, r, stack);
  }

  lemma {:induction false} EvalBin(tokens: seq<string>, i: nat, j: nat, op: char, l: Expr, r: Expr, stack: seq<int>)
    requires WellFormed(Bin(op, l, r)) && NoDivision(Bin(op, l, r))
    requires j == i + |Postfix(Bin(op, l, r))| <= |tokens| && tokens[i..j] == Postfix(Bin(op, l, r))
    requires |stack| + OperandDepth(Bin(op, l, r)) <= DefaultCapacity
    ensures FinalStack(EvalFrom(tokens, i, stack)) == FinalStack(EvalFrom(tokens, j, stack + [Value(Bin(op, l, r))]))
    decreases Bin(op, l, r), 0
  {
    var m := i + |Postfix(l)|;
    var k := m + |Postfix(r)|;
    PostfixParts(tokens, i, m, k, j, op, l, r);
    assert |stack| + OperandDepth(l) <= DefaultCapacity && |stack + [Value(l)]| + OperandDepth(r) <= DefaultCapacity;
    EvalExpr(tokens, i, m, l, stack);
    EvalExpr(tokens, m, k, r, stack + [Value(l)]);
    assert Value(Bin(op, l, r)) == if op == '+' then Value(l) + Value(r) else if op == '-' then Value(l) - Value(r) else Value(l) * Value(r);
    ApplyOperator(tokens, k, j, op, stack, Value(l), Value(r), Value(Bin(op, l, r)));
  }

  /** Where the parts of an operation's postfix form sit among the tokens. */
  lemma PostfixParts(tokens: seq<string>, i: nat, m: nat, k: nat, j: nat, op: char, l: Expr, r: Expr)
    requires j == i + |Postfix(Bin(op, l, r))| <= |tokens| && tokens[i..j] == Postfix(Bin(op, l, r))
    requires m == i + |Postfix(l)| && k == m + |Postfix(r)|
    ensures tokens[i..m] == Postfix(l) && tokens[m..k] == Postfix(r)
    ensures j == k + 1 && tokens[k] == Single(op)
  {
    var t := tokens[i..j];
    var nl, nr := |Postfix(l)|, |Postfix(r)|;
    assert t == Postfix(l) + Postfix(r) + [Single(op)];
    SliceOfSlice(tokens, i, j, 0, nl);
    assert t[..nl] == Postfix(l);
    SliceOfSlice(tokens, i, j, nl, nl + nr);
    assert t[nl..nl + nr] == Postfix(r);
    assert tokens[j - 1] == t[|t| - 1];
  }

  /** An operator token takes the two values on top of the stack and
      leaves its result in their place. */
  lemma ApplyOperator(tokens: seq<string>, k: nat, j: nat, op: char, stack: seq<int>, a: int, b: int, v: int)
    requires j == k + 1 <= |tokens| && tokens[k] == Single(op) && (op == '+' || op == '-' || op == '*')
    requires v == if op == '+' then a + b else if op == '-' then a - b else a * b
    ensures FinalStack(EvalFrom(tokens, k, stack + [a] + [b])) == FinalStack(EvalFrom(tokens, j, stack + [v]))
  {
    var st := stack + [a] + [b];
    assert !IsNumber(tokens[k]) by {
      assert tokens[k][0] == op;
    }
    assert st[..|st| - 2] == stack;
    assert Single(op) == [op];
  }

  /** The postfix tokens of `e` are words: `split()` does not break them. */
  lemma {:induction false} PostfixWords(e: Expr)
    requires WellFormed(e)
    ensures forall k :: 0 <= k < |Postfix(e)| ==> IsWord(Postfix(e)[k])
  {
    match e
    case Num(d) =>
    case Group(x) =>
      PostfixWords(x);
    case Bin(op, l, r) =>
      PostfixWords(l);
      PostfixWords(r);
      assert IsWord(Single(op));
      var p := Postfix(e);
      assert forall k :: 0 <= k < |p| ==>
        p[k] == (if k < |Postfix(l)| then Postfix(l)[k]
                 else if k < |Postfix(l)| + |Postfix(r)| then Postfix(r)[k - |Postfix(l)|]
                 else Single(op));
  }

  /** The text of a well-formed expression within the converter's stack
      capacity converts to the expression's postfix form. */
  lemma ConvertsToPostfix(e: Expr)
    requires WellFormed(e) && OperatorDepth(e) <= DefaultCapacity
    ensures ToPostfix(Print(e)) == Ok(Postfix(e))
  {
    var s := Print(e);
    PrintChars(e);
    assert RemoveSpaces(s) == s;
    assert s[0..|s|] == s;
    ReadExpr(s, 0, |s|, e, [], []);
    assert [] + Emitted(e) == Emitted(e) && [] + Pending(e) == Pending(e);
    FlushPops(Emitted(e), Pending(e));
    PendingFacts(e);
  }

  /** The postfix form of a well-formed expression without division,
      within the evaluator's stack capacity, evaluates to its value. */
  lemma EvaluatesToValue(e: Expr)
    requires WellFormed(e) && NoDivision(e) && OperandDepth(e) <= DefaultCapacity
    ensures Evaluate(Postfix(e)).Ok? && Evaluate(Postfix(e)).value.result == Value(e)
  {
    var p := Postfix(e);
    assert p[0..|p|] == p;
    EvalExpr(p, 0, |p|, e, []);
    assert [] + [Value(e)] == [Value(e)];
  }

  /** End to end: the text of a well-formed expression without division,
      within the capacity of both stacks, converts to its postfix form,
      whose printed text splits back into the same tokens, and evaluating
      them gives the expression's value. */
  lemma Correctness(e: Expr)
    requires WellFormed(e) && NoDivision(e)
    requires OperatorDepth(e) <= DefaultCapacity && OperandDepth(e) <= DefaultCapacity
    ensures ToPostfix(Print(e)) == Ok(Postfix(e))
    ensures Split(Join(ToPostfix(Print(e)).value)) == Postfix(e)
    ensures Evaluate(Split(Join(ToPostfix(Print(e)).value))).Ok?
    ensures Evaluate(Split(Join(ToPostfix(Print(e)).value))).value.result == Value(e)
  {
    ConvertsToPostfix(e);
    PostfixWords(e);
    SplitJoin(Postfix(e));
    EvaluatesToValue(e);
  }
}
