/** The expression engine of app.py: an infix-to-postfix converter (the
    shunting-yard method over a bounded operator stack) and a postfix
    evaluator over a bounded operand stack. Each is a recursive
    reference function plus the imperative procedure of the source,
    proved to compute exactly what the reference function says. */
module Expressions {
  import opened Errors
  import opened Stacks

  /** Binding strength: `*` and `/` bind tighter than `+` and `-`; every
      other character, `(` included, ranks 0. */
  function Precedence(op: char): (p: int)
    ensures 0 <= p <= 2
    ensures p == 2 <==> op == '*' || op == '/'
    ensures p == 1 <==> op == '+' || op == '-'
  {
    if op == '+' || op == '-' then 1
    else if op == '*' || op == '/' then 2
    else 0
  }

  /** ASCII decimal digits (the source's `isdigit` also accepts other
      Unicode digits; those are not modelled). */
  predicate IsDigit(c: char) {
    '0' <= c <= '9'
  }

  /** The whitespace characters on which a no-argument `split()` breaks. */
  predicate IsSpace(c: char) {
    var n := c as int;
    n == 0x20 || 0x09 <= n <= 0x0D || 0x1C <= n <= 0x1F || n == 0x85 || n == 0xA0
    || n == 0x1680 || 0x2000 <= n <= 0x200A || n == 0x2028 || n == 0x2029
    || n == 0x202F || n == 0x205F || n == 0x3000
  }

  /** `replace(" ", "")`: every U+0020 space dropped, all else kept in order. */
  function RemoveSpaces(s: string): (r: string)
    ensures |r| <= |s|
    ensures forall i :: 0 <= i < |r| ==> r[i] != ' '
    ensures (forall i :: 0 <= i < |s| ==> s[i] != ' ') ==> r == s
  {
    if s == [] then []
    else if s[0] == ' ' then RemoveSpaces(s[1..])
    else [s[0]] + RemoveSpaces(s[1..])
  }

  /** A single character: a space is dropped, any other character kept. */
  lemma RemoveSpacesChar(c: char)
    ensures c == ' ' ==> RemoveSpaces([c]) == []
    ensures c != ' ' ==> RemoveSpaces([c]) == [c]
  {
  }

  /** Spaces are removed piecewise: the text of `a + b` keeps what `a`
      keeps, followed by what `b` keeps. */
  lemma {:induction false} RemoveSpacesConcat(a: string, b: string)
    ensures RemoveSpaces(a + b) == RemoveSpaces(a) + RemoveSpaces(b)
  {
    if a == [] {
      assert a + b == b;
    } else {
      assert (a + b)[0] == a[0];
      assert (a + b)[1..] == a[1..] + b;
      RemoveSpacesConcat(a[1..], b);
      if a[0] != ' ' {
        assert RemoveSpaces(a + b) == [a[0]] + RemoveSpaces(a[1..] + b);
        assert [a[0]] + (RemoveSpaces(a[1..]) + RemoveSpaces(b)) == ([a[0]] + RemoveSpaces(a[1..])) + RemoveSpaces(b);
      }
    }
  }

  /** Length of the run of digits of `s` that starts at index `i`. */
  function DigitRun(s: string, i: nat): (n: nat)
    requires i <= |s|
    ensures i + n <= |s|
    ensures forall k :: i <= k < i + n ==> IsDigit(s[k])
    ensures i + n < |s| ==> !IsDigit(s[i + n])
    decreases |s| - i
  {
    if i == |s| || !IsDigit(s[i]) then 0 else 1 + DigitRun(s, i + 1)
  }

  // ---------------------------------------------------------------------
  // Infix to postfix

  /** A one-character output token. */
  function Single(c: char): string {
    [c]
  }

  /** The output tokens for the stacked characters `part` (bottom to top)
      when they are popped: top first, one token each. */
  function Popped(part: seq<char>): (ts: seq<string>)
    ensures |ts| == |part|
    ensures forall k :: 0 <= k < |part| ==> ts[k] == Single(part[|part| - 1 - k])
  {
    if part == [] then [] else [Single(part[|part| - 1])] + Popped(part[..|part| - 1])
  }

  /** `out'` and `rest` are `out` and `ops` after the top of `ops` above
      `rest` has been popped onto the output. */
  ghost predicate PoppedOnto(out: seq<string>, ops: seq<char>, out': seq<string>, rest: seq<char>) {
    |rest| <= |ops| && rest == ops[..|rest|] && out' == out + Popped(ops[|rest|..])
  }

  /** Popping one more character extends the popped tokens by one. */
  lemma PopOneMore(out: seq<string>, ops: seq<char>, out': seq<string>, rest: seq<char>)
    requires ops != []
    requires PoppedOnto(out + [Single(ops[|ops| - 1])], ops[..|ops| - 1], out', rest)
    ensures PoppedOnto(out, ops, out', rest)
  {
    var part := ops[|rest|..];
    assert part[..|part| - 1] == ops[..|ops| - 1][|rest|..];
  }

  /** The `)` case: pop operators onto the output until a `(` is on top or
      the stack is empty. */
  function PopUntilOpen(out: seq<string>, ops: seq<char>): (seq<string>, seq<char>)
    decreases |ops|
  {
    if ops == [] || ops[|ops| - 1] == '(' then (out, ops)
    else PopUntilOpen(out + [Single(ops[|ops| - 1])], ops[..|ops| - 1])
  }

  /** `PopUntilOpen` pops the characters above the topmost `(`, top first,
      and stops at that `(` or at the bottom of the stack. */
  lemma {:induction false} PopUntilOpenPops(out: seq<string>, ops: seq<char>)
    ensures var (out', rest) := PopUntilOpen(out, ops);
      && PoppedOnto(out, ops, out', rest)
      && (rest == [] || rest[|rest| - 1] == '(')
      && (forall k :: |rest| <= k < |ops| ==> ops[k] != '(')
    decreases |ops|
  {
    if ops == [] || ops[|ops| - 1] == '(' {
      assert ops[|ops|..] == [];
    } else {
      PopUntilOpenPops(out + [Single(ops[|ops| - 1])], ops[..|ops| - 1]);
      var (out', rest) := PopUntilOpen(out, ops);
      PopOneMore(out, ops, out', rest);
    }
  }

  /** The operator case: pop every stacked character that binds at least
      as tightly as precedence `p`. */
  function PopWhileGeq(out: seq<string>, ops: seq<char>, p: int): (seq<string>, seq<char>)
    decreases |ops|
  {
    if ops == [] || Precedence(ops[|ops| - 1]) < p then (out, ops)
    else PopWhileGeq(out + [Single(ops[|ops| - 1])], ops[..|ops| - 1], p)
  }

  /** `PopWhileGeq` pops, top first, exactly the characters above the
      topmost one that binds less tightly than `p`. */
  lemma {:induction false} PopWhileGeqPops(out: seq<string>, ops: seq<char>, p: int)
    ensures var (out', rest) := PopWhileGeq(out, ops, p);
      && PoppedOnto(out, ops, out', rest)
      && (rest == [] || Precedence(rest[|rest| - 1]) < p)
      && (forall k :: |rest| <= k < |ops| ==> Precedence(ops[k]) >= p)
    decreases |ops|
  {
    if ops == [] || Precedence(ops[|ops| - 1]) < p {
      assert ops[|ops|..] == [];
    } else {
      PopWhileGeqPops(out + [Single(ops[|ops| - 1])], ops[..|ops| - 1], p);
      var (out', rest) := PopWhileGeq(out, ops, p);
      PopOneMore(out, ops, out', rest);
    }
  }

  /** End of input: every remaining stacked character goes to the output,
      top first. */
  function Flush(out: seq<string>, ops: seq<char>): seq<string>
    decreases |ops|
  {
    if ops == [] then out else Flush(out + [Single(ops[|ops| - 1])], ops[..|ops| - 1])
  }

  /** `Flush` pops the whole stack, top first. */
  lemma {:induction false} FlushPops(out: seq<string>, ops: seq<char>)
    ensures Flush(out, ops) == out + Popped(ops)
    decreases |ops|
  {
    if ops == [] {
      assert out + [] == out;
    } else {
      FlushPops(out + [Single(ops[|ops| - 1])], ops[..|ops| - 1]);
      PopOneMore(out, ops, Flush(out, ops), []);
    }
  }

  /** The conversion of the space-free input `s` from index `i` on, given
      the output so far and the operator stack, bottom to top. The stack
      holds at most `DefaultCapacity` characters; a push beyond that fails
      with a stack overflow, and a `)` with nothing left to pop fails with
      a stack underflow. */
  function Convert(s: string, i: nat, out: seq<string>, ops: seq<char>): (r: Result<seq<string>>)
    requires i <= |s|
    decreases |s| - i
  {
    if i == |s| then Ok(Flush(out, ops))
    else if IsDigit(s[i]) then
      var n := DigitRun(s, i);
      Convert(s, i + n, out + [s[i..i + n]], ops)
    else if s[i] == '(' then
      if |ops| >= DefaultCapacity then Err(StackOverflow) else Convert(s, i + 1, out, ops + ['('])
    else if s[i] == ')' then
      var (out', ops') := PopUntilOpen(out, ops);
      if ops' == [] then Err(StackUnderflow) else Convert(s, i + 1, out', ops'[..|ops'| - 1])
    else
      var (out', ops') := PopWhileGeq(out, ops, Precedence(s[i]));
      if |ops'| >= DefaultCapacity then Err(StackOverflow) else Convert(s, i + 1, out', ops' + [s[i]])
  }

  /** The postfix token list of an infix expression. */
  function ToPostfix(expression: string): Result<seq<string>> {
    Convert(RemoveSpaces(expression), 0, [], [])
  }

  /** `' '.join(tokens)`. */
  function Join(tokens: seq<string>): (s: string)
    ensures tokens == [] ==> s == []
  {
    if tokens == [] then []
    else if |tokens| == 1 then tokens[0]
    else tokens[0] + [' '] + Join(tokens[1..])
  }

  /** The source's `infix_to_postfix`: the space-free input is scanned
      left to right with an index, a whole digit run at a time. */
  method InfixToPostfix(expression: string) returns (r: Result<string>)
    ensures ToPostfix(expression).Err? ==> r == Err(ToPostfix(expression).error)
    ensures ToPostfix(expression).Ok? ==> r == Ok(Join(ToPostfix(expression).value))
  {
    var s := RemoveSpaces(expression);
    var output: seq<string> := [];
    var ops := new Stack<char>(DefaultCapacity);
    var i := 0;
    while i < |s|
      invariant 0 <= i <= |s| && ops.Valid() && ops.capacity == DefaultCapacity
      invariant Convert(s, i, output, ops.elements) == Convert(s, 0, [], [])
      decreases |s| - i
    {
      var c := s[i];
      if IsDigit(c) {
        ghost var start := i;
        var num := [c];
        while i + 1 < |s| && IsDigit(s[i + 1])
          invariant start <= i < |s| && num == s[start..i + 1]
          invariant forall k :: start <= k <= i ==> IsDigit(s[k])
        {
          i := i + 1;
          num := num + [s[i]];
        }
        DigitRunIs(s, start, i + 1 - start);
        output := output + [num];
      } else if c == '(' {
        var pushed := ops.Push(c);
        if pushed.Err? {
          return Err(pushed.error);
        }
      } else if c == ')' {
        output := PopToOpen(ops, output);
        var popped := ops.Pop();
        if popped.Err? {
          return Err(popped.error);
        }
      } else {
        output := PopBindingAtLeast(ops, output, Precedence(c));
        var pushed := ops.Push(c);
        if pushed.Err? {
          return Err(pushed.error);
        }
      }
      i := i + 1;
    }
    output := PopAll(ops, output);
    return Ok(Join(output));
  }

  /** `DigitRun` is the length of the leading digit run, however found. */
  lemma {:induction false} DigitRunIs(s: string, i: nat, n: nat)
    requires i + n <= |s| && (forall k :: i <= k < i + n ==> IsDigit(s[k]))
    requires i + n < |s| ==> !IsDigit(s[i + n])
    ensures DigitRun(s, i) == n
    decreases n
  {
    if n > 0 {
      DigitRunIs(s, i + 1, n - 1);
    }
  }

  /** The loop of the `)` case. */
  method PopToOpen(ops: Stack<char>, output: seq<string>) returns (output': seq<string>)
    requires ops.Valid()
    modifies ops
    ensures ops.Valid()
    ensures (output', ops.elements) == PopUntilOpen(output, old(ops.elements))
  {
    output' := output;
    while true
      invariant ops.Valid()
      invariant PopUntilOpen(output', ops.elements) == PopUntilOpen(output, old(ops.elements))
      decreases |ops.elements|
    {
      var empty := ops.IsEmpty();
      if empty {
        break;
      }
      var top := ops.Peek();
      if top.value == '(' {
        break;
      }
      var popped := ops.Pop();
      output' := output' + [Single(popped.value)];
    }
  }

  /** The loop of the operator case. */
  method PopBindingAtLeast(ops: Stack<char>, output: seq<string>, p: int) returns (output': seq<string>)
    requires ops.Valid()
    modifies ops
    ensures ops.Valid()
    ensures (output', ops.elements) == PopWhileGeq(output, old(ops.elements), p)
  {
    output' := output;
    while true
      invariant ops.Valid()
      invariant PopWhileGeq(output', ops.elements, p) == PopWhileGeq(output, old(ops.elements), p)
      decreases |ops.elements|
    {
      var empty := ops.IsEmpty();
      if empty {
        break;
      }
      var top := ops.Peek();
      if Precedence(top.value) < p {
        break;
      }
      var popped := ops.Pop();
      output' := output' + [Single(popped.value)];
    }
  }

  /** The final loop: empty the operator stack onto the output. */
  method PopAll(ops: Stack<char>, output: seq<string>) returns (output': seq<string>)
    requires ops.Valid()
    modifies ops
    ensures ops.Valid() && ops.elements == []
    ensures output' == Flush(output, old(ops.elements))
  {
    output' := output;
    while true
      invariant ops.Valid()
      invariant Flush(output', ops.elements) == Flush(output, old(ops.elements))
      decreases |ops.elements|
    {
      var empty := ops.IsEmpty();
      if empty {
        break;
      }
      var popped := ops.Pop();
      output' := output' + [Single(popped.value)];
    }
  }

  // ---------------------------------------------------------------------
  // Splitting and joining tokens

  /** A token as `split()` yields it: nonempty, with no whitespace. */
  predicate IsWord(t: string) {
    t != [] && forall k :: 0 <= k < |t| ==> !IsSpace(t[k])
  }

  /** `s` without its leading whitespace. */
  function DropSpaces(s: string): (r: string)
    ensures |r| <= |s| && r == s[|s| - |r|..]
    ensures forall k :: 0 <= k < |s| - |r| ==> IsSpace(s[k])
    ensures r == [] || !IsSpace(r[0])
  {
    if s != [] && IsSpace(s[0]) then DropSpaces(s[1..]) else s
  }

  /** Length of the leading run of non-whitespace characters. */
  function WordLength(s: string): (n: nat)
    ensures n <= |s|
    ensures forall k :: 0 <= k < n ==> !IsSpace(s[k])
    ensures n < |s| ==> IsSpace(s[n])
  {
    if s == [] || IsSpace(s[0]) then 0 else 1 + WordLength(s[1..])
  }

  /** `s.split()`: the maximal whitespace-free runs of `s`, in order. */
  function Split(s: string): (ts: seq<string>)
    decreases |s|
  {
    var t := DropSpaces(s);
    if t == [] then []
    else
      var n := WordLength(t);
      [t[..n]] + Split(t[n..])
  }

  /** Every piece `split()` returns is non-empty and free of whitespace. */
  lemma {:induction false} SplitGivesWords(s: string)
    ensures forall k :: 0 <= k < |Split(s)| ==> IsWord(Split(s)[k])
    decreases |s|
  {
    var t := DropSpaces(s);
    if t != [] {
      var n := WordLength(t);
      var w, rest := t[..n], t[n..];
      SplitGivesWords(rest);
      assert Split(s) == [w] + Split(rest);
      forall k | 0 <= k < |Split(s)|
        ensures IsWord(Split(s)[k])
      {
        if k > 0 {
          assert Split(s)[k] == Split(rest)[k - 1];
        }
      }
    }
  }

  /** `WordLength` of a word followed by a space or by nothing. */
  lemma {:induction false} WordLengthOf(w: string, rest: string)
    requires forall k :: 0 <= k < |w| ==> !IsSpace(w[k])
    requires rest == [] || IsSpace(rest[0])
    ensures WordLength(w + rest) == |w|
    decreases |w|
  {
    if w != [] {
      assert (w + rest)[1..] == w[1..] + rest;
      WordLengthOf(w[1..], rest);
    }
  }

  /** Splitting the space-joined words gives the words back. */
  lemma {:induction false} SplitJoin(ts: seq<string>)
    requires forall k :: 0 <= k < |ts| ==> IsWord(ts[k])
    ensures Split(Join(ts)) == ts
  {
    if |ts| == 1 {
      SplitWord(ts[0]);
    } else if |ts| > 1 {
      var rest := ts[1..];
      assert Join(ts) == ts[0] + [' '] + Join(rest);
      SplitJoin(rest);
      JoinStartsWithWord(rest);
      SplitWordThen(ts[0], Join(rest));
      assert ts == [ts[0]] + rest;
    }
  }

  /** A single word splits to itself. */
  lemma SplitWord(w: string)
    requires IsWord(w)
    ensures Split(w) == [w]
  {
    WordLengthOf(w, []);
    assert w + [] == w;
    assert w[|w|..] == [];
  }

  /** Splitting a word, a space and a text that starts with no whitespace
      yields the word, then the text's own split. */
  lemma SplitWordThen(w: string, rest: string)
    requires IsWord(w)
    requires rest == [] || !IsSpace(rest[0])
    ensures Split(w + [' '] + rest) == [w] + Split(rest)
  {
    var s := w + [' '] + rest;
    WordLengthOf(w, [' '] + rest);
    assert s == w + ([' '] + rest);
    assert DropSpaces(s) == s;
    assert s[..|w|] == w;
    assert s[|w|..] == [' '] + rest;
    assert ([' '] + rest)[1..] == rest;
    assert DropSpaces([' '] + rest) == rest;
  }

  /** A join of words starts with the first word's first character. */
  lemma JoinStartsWithWord(ts: seq<string>)
    requires ts != [] && IsWord(ts[0])
    ensures Join(ts) != [] && Join(ts)[0] == ts[0][0]
  {
  }

  /** Every token the conversion produces is a word when the converted text
      holds no whitespace: digit runs and single characters. */
  lemma {:induction false} ConvertGivesWords(s: string, i: nat, out: seq<string>, ops: seq<char>)
    requires i <= |s|
    requires forall k :: 0 <= k < |s| ==> !IsSpace(s[k])
    requires forall k :: 0 <= k < |out| ==> IsWord(out[k])
    requires forall k :: 0 <= k < |ops| ==> !IsSpace(ops[k])
    requires Convert(s, i, out, ops).Ok?
    ensures forall k :: 0 <= k < |Convert(s, i, out, ops).value| ==> IsWord(Convert(s, i, out, ops).value[k])
    decreases |s| - i
  {
    if i == |s| {
      FlushPops(out, ops);
      assert ops[0..] == ops;
      PopKeepsWords(out, ops, Flush(out, ops), []);
    } else {
      var next, out', ops';
      if IsDigit(s[i]) {
        var n := DigitRun(s, i);
        next, out', ops' := i + n, out + [s[i..i + n]], ops;
        assert IsWord(s[i..i + n]);
      } else if s[i] == '(' {
        next, out', ops' := i + 1, out, ops + ['('];
      } else if s[i] == ')' {
        var (o, r) := PopUntilOpen(out, ops);
        PopUntilOpenPops(out, ops);
        PopKeepsWords(out, ops, o, r);
        next, out', ops' := i + 1, o, r[..|r| - 1];
      } else {
        var (o, r) := PopWhileGeq(out, ops, Precedence(s[i]));
        PopWhileGeqPops(out, ops, Precedence(s[i]));
        PopKeepsWords(out, ops, o, r);
        next, out', ops' := i + 1, o, r + [s[i]];
      }
      assert Convert(s, i, out, ops) == Convert(s, next, out', ops');
      ConvertGivesWords(s, next, out', ops');
    }
  }

  /** Popping characters that are not whitespace onto a list of words
      keeps it a list of words. */
  lemma PopKeepsWords(out: seq<string>, ops: seq<char>, out': seq<string>, rest: seq<char>)
    requires forall k :: 0 <= k < |out| ==> IsWord(out[k])
    requires forall k :: 0 <= k < |ops| ==> !IsSpace(ops[k])
    requires PoppedOnto(out, ops, out', rest)
    ensures forall k :: 0 <= k < |out'| ==> IsWord(out'[k])
    ensures forall k :: 0 <= k < |rest| ==> !IsSpace(rest[k])
  {
    var part := ops[|rest|..];
    forall k | 0 <= k < |out'|
      ensures IsWord(out'[k])
    {
      if k >= |out| {
        assert out'[k] == Popped(part)[k - |out|] == Single(part[|part| - 1 - (k - |out|)]);
      }
    }
  }

  /** The text `infix_to_postfix` returns splits back into exactly its
      token list, provided the expression's only whitespace is U+0020. */
  lemma PostfixTextSplits(expression: string)
    requires forall k :: 0 <= k < |expression| ==> expression[k] == ' ' || !IsSpace(expression[k])
    requires ToPostfix(expression).Ok?
    ensures Split(Join(ToPostfix(expression).value)) == ToPostfix(expression).value
  {
    var s := RemoveSpaces(expression);
    RemoveSpacesKeeps(expression);
    ConvertGivesWords(s, 0, [], []);
    SplitJoin(ToPostfix(expression).value);
  }

  /** `RemoveSpaces` keeps only characters of its input. */
  lemma {:induction false} RemoveSpacesKeeps(s: string)
    ensures forall k :: 0 <= k < |RemoveSpaces(s)| ==> RemoveSpaces(s)[k] in s
  {
    if s != [] {
      RemoveSpacesKeeps(s[1..]);
    }
  }

  // ---------------------------------------------------------------------
  // Postfix evaluation

  /** A token `isdigit` accepts. */
  predicate IsNumber(t: string) {
    t != [] && forall k :: 0 <= k < |t| ==> IsDigit(t[k])
  }

  /** `int(t)` for a string of decimal digits. */
  function DecimalValue(t: string): (v: nat)
    requires forall k :: 0 <= k < |t| ==> IsDigit(t[k])
  {
    if t == [] then 0 else 10 * DecimalValue(t[..|t| - 1]) + DigitValue(t[|t| - 1])
  }

  function DigitValue(c: char): (d: nat)
    requires IsDigit(c)
    ensures d <= 9
  {
    c as int - '0' as int
  }

  /** What one token did. */
  datatype Action =
    | PushOperand(operand: int)
    | Apply(op: string, operand1: int, operand2: int, result: int)

  /** One recorded step: the action and the stack after it, bottom to top. */
  datatype EvalStep = EvalStep(action: Action, stack: seq<int>)

  /** The final value and the step record. */
  datatype Evaluation = Evaluation(result: int, steps: seq<EvalStep>)

  /** The arithmetic of a binary operator token. Division is true division
      in the source, whose result is a floating-point number; it is not
      modelled and is reported as such. */
  function Calc(op: string, operand1: int, operand2: int): (r: Result<int>)
    ensures r.Err? <==> op != "+" && op != "-" && op != "*"
    ensures op == "/" ==> r == Err(DivisionNotModelled)
    ensures op != "+" && op != "-" && op != "*" && op != "/" ==> r == Err(UnknownOperator(op))
    ensures op == "+" ==> r == Ok(operand1 + operand2)
    ensures op == "-" ==> r == Ok(operand1 - operand2)
    ensures op == "*" ==> r == Ok(operand1 * operand2)
  {
    if op == "+" then Ok(operand1 + operand2)
    else if op == "-" then Ok(operand1 - operand2)
    else if op == "*" then Ok(operand1 * operand2)
    else if op == "/" then Err(DivisionNotModelled)
    else Err(UnknownOperator(op))
  }

  /** The effect of one token on the operand stack (at most
      `DefaultCapacity` values): a number is pushed; anything else pops the
      second operand, then the first, and pushes the result. */
  function EvalToken(token: string, stack: seq<int>): (r: Result<(seq<int>, EvalStep)>)
  {
    if IsNumber(token) then
      if |stack| >= DefaultCapacity then Err(StackOverflow)
      else
        var v := DecimalValue(token);
        Ok((stack + [v], EvalStep(PushOperand(v), stack + [v])))
    else if |stack| < 2 then Err(StackUnderflow)
    else
      var operand2, operand1 := stack[|stack| - 1], stack[|stack| - 2];
      var rest := stack[..|stack| - 2];
      match Calc(token, operand1, operand2)
      case Err(e) => Err(e)
      case Ok(v) => Ok((rest + [v], EvalStep(Apply(token, operand1, operand2, v), rest + [v])))
  }

  /** `steps` recorded before a run that ends in `r`. */
  function Prepend(steps: seq<EvalStep>, r: Result<(seq<int>, seq<EvalStep>)>): Result<(seq<int>, seq<EvalStep>)> {
    match r
    case Err(e) => Err(e)
    case Ok((stack, more)) => Ok((stack, steps + more))
  }

  /** The tokens from index `i` on, applied to `stack`: the final stack and
      the steps recorded, or the first error. */
  function EvalFrom(tokens: seq<string>, i: nat, stack: seq<int>): (r: Result<(seq<int>, seq<EvalStep>)>)
    requires i <= |tokens|
    decreases |tokens| - i
  {
    if i == |tokens| then Ok((stack, []))
    else
      match EvalToken(tokens[i], stack)
      case Err(e) => Err(e)
      case Ok((stack', step)) => Prepend([step], EvalFrom(tokens, i + 1, stack'))
  }

  /** The value of a postfix token list: the top of the stack once every
      token has been applied (values left below it are ignored), and the
      step record. */
  function Evaluate(tokens: seq<string>): Result<Evaluation> {
    match EvalFrom(tokens, 0, [])
    case Err(e) => Err(e)
    case Ok((stack, steps)) =>
      if stack == [] then Err(StackUnderflow) else Ok(Evaluation(stack[|stack| - 1], steps))
  }

  lemma PrependTwice(a: seq<EvalStep>, b: seq<EvalStep>, r: Result<(seq<int>, seq<EvalStep>)>)
    ensures Prepend(a, Prepend(b, r)) == Prepend(a + b, r)
  {
    if r.Ok? {
      assert a + (b + r.value.1) == (a + b) + r.value.1;
    }
  }

  lemma PrependNothing(r: Result<(seq<int>, seq<EvalStep>)>)
    ensures Prepend([], r) == r
  {
    if r.Ok? {
      assert [] + r.value.1 == r.value.1;
    }
  }

  /** The body of the source's token loop, on the live operand stack. */
  method EvalOne(st: Stack<int>, token: string) returns (r: Result<EvalStep>)
    requires st.Valid() && st.capacity == DefaultCapacity
    modifies st
    ensures st.Valid()
    ensures EvalToken(token, old(st.elements)).Err? ==> r == Err(EvalToken(token, old(st.elements)).error)
    ensures EvalToken(token, old(st.elements)).Ok? ==>
      r == Ok(EvalToken(token, old(st.elements)).value.1) && st.elements == EvalToken(token, old(st.elements)).value.0
  {
    ghost var before := st.elements;
    if IsNumber(token) {
      var v := DecimalValue(token);
      var pushed := st.Push(v);
      if pushed.Err? {
        return Err(pushed.error);
      }
      var snapshot := st.ToList();
      return Ok(EvalStep(PushOperand(v), snapshot));
    }
    var operand2 := st.Pop();
    if operand2.Err? {
      return Err(operand2.error);
    }
    var operand1 := st.Pop();
    if operand1.Err? {
      return Err(operand1.error);
    }
    var result := Calc(token, operand1.value, operand2.value);
    if result.Err? {
      return Err(result.error);
    }
    ghost var rest := st.elements;
    assert before == rest + [operand1.value, operand2.value];
    assert before[..|before| - 2] == rest;
    var pushed := st.Push(result.value);
    var snapshot := st.ToList();
    return Ok(EvalStep(Apply(token, operand1.value, operand2.value, result.value), snapshot));
  }

  /** The source's `evaluate_postfix`. */
  method EvaluatePostfix(expression: string) returns (r: Result<Evaluation>)
    ensures r == Evaluate(Split(expression))
  {
    var tokens := Split(expression);
    var st := new Stack<int>(DefaultCapacity);
    var steps: seq<EvalStep> := [];
    PrependNothing(EvalFrom(tokens, 0, []));
    for i := 0 to |tokens|
      invariant st.Valid() && st.capacity == DefaultCapacity
      invariant Prepend(steps, EvalFrom(tokens, i, st.elements)) == EvalFrom(tokens, 0, [])
    {
      ghost var before := st.elements;
      var step := EvalOne(st, tokens[i]);
      if step.Err? {
        return Err(step.error);
      }
      assert EvalFrom(tokens, i, before) == Prepend([step.value], EvalFrom(tokens, i + 1, st.elements));
      PrependTwice(steps, [step.value], EvalFrom(tokens, i + 1, st.elements));
      steps := steps + [step.value];
    }
    assert EvalFrom(tokens, 0, []) == Ok((st.elements, steps)) by {
      assert steps + [] == steps;
    }
    var last := st.Pop();
    if last.Err? {
      return Err(last.error);
    }
    return Ok(Evaluation(last.value, steps));
  }

  // ---------------------------------------------------------------------
  // Properties of the converter

  /** An operator never pops a `(`: it pops exactly the stacked operators
      above the nearest `(` that bind at least as tightly, so operators of
      equal precedence leave in arrival order (left associativity). */
  lemma OperatorStopsAtOpen(out: seq<string>, below: seq<char>, above: seq<char>, c: char)
    requires Precedence(c) >= 1
    requires forall k :: 0 <= k < |above| ==> Precedence(above[k]) >= Precedence(c)
    ensures PopWhileGeq(out, below + ['('] + above, Precedence(c)) == (out + Popped(above), below + ['('])
  {
    PopExactly(out, below + ['('], above, Precedence(c));
  }

  /** Popping by precedence removes exactly a top part that binds at least
      as tightly, when what lies below it binds less tightly. */
  lemma {:induction false} PopExactly(out: seq<string>, ops: seq<char>, part: seq<char>, p: int)
    requires forall k :: 0 <= k < |part| ==> Precedence(part[k]) >= p
    requires ops == [] || Precedence(ops[|ops| - 1]) < p
    ensures PopWhileGeq(out, ops + part, p) == (out + Popped(part), ops)
    decreases |part|
  {
    var all := ops + part;
    if part == [] {
      assert all == ops;
      assert out + Popped(part) == out;
    } else {
      assert all[..|all| - 1] == ops + part[..|part| - 1];
      assert all[|all| - 1] == part[|part| - 1];
      PopExactly(out + [Single(part[|part| - 1])], ops, part[..|part| - 1], p);
      assert Popped(part) == [Single(part[|part| - 1])] + Popped(part[..|part| - 1]);
      assert out + [Single(part[|part| - 1])] + Popped(part[..|part| - 1]) == out + Popped(part);
    }
  }

  /** A `)` removes exactly the operators above the nearest `(`, emits them
      top first, and discards that `(`. */
  lemma {:induction false} CloseEmitsUpToOpen(out: seq<string>, ops: seq<char>, part: seq<char>)
    requires forall k :: 0 <= k < |part| ==> part[k] != '('
    ensures PopUntilOpen(out, ops + ['('] + part) == (out + Popped(part), ops + ['('])
    decreases |part|
  {
    var all := ops + ['('] + part;
    if part == [] {
      assert all == ops + ['('];
      assert out + Popped(part) == out;
    } else {
      assert all[..|all| - 1] == ops + ['('] + part[..|part| - 1];
      assert all[|all| - 1] == part[|part| - 1];
      CloseEmitsUpToOpen(out + [Single(part[|part| - 1])], ops, part[..|part| - 1]);
      assert Popped(part) == [Single(part[|part| - 1])] + Popped(part[..|part| - 1]);
      assert out + [Single(part[|part| - 1])] + Popped(part[..|part| - 1]) == out + Popped(part);
    }
  }

  /** A `)` with no `(` on the stack fails with a stack underflow. */
  lemma UnmatchedCloseUnderflows(s: string, i: nat, out: seq<string>, ops: seq<char>)
    requires i < |s| && s[i] == ')'
    requires forall k :: 0 <= k < |ops| ==> ops[k] != '('
    ensures Convert(s, i, out, ops) == Err(StackUnderflow)
  {
    PopUntilOpenPops(out, ops);
  }

  /** Opening parentheses beyond the stack's capacity overflow it: `k`
      consecutive `(` on a stack of `|ops|` characters fail as soon as
      `|ops| + k` exceeds the capacity. */
  lemma {:induction false} NestingOverflows(s: string, i: nat, k: nat, out: seq<string>, ops: seq<char>)
    requires i + k <= |s| && forall m :: i <= m < i + k ==> s[m] == '('
    requires |ops| <= DefaultCapacity < |ops| + k
    ensures Convert(s, i, out, ops) == Err(StackOverflow)
    decreases k
  {
    assert s[i] == '(';
    if |ops| < DefaultCapacity {
      NestingOverflows(s, i + 1, k - 1, out, ops + ['(']);
    }
  }

  /** The numbers among the tokens `ts`, in order. */
  function Numbers(ts: seq<string>): (ns: seq<string>)
    ensures |ns| <= |ts|
    ensures forall k :: 0 <= k < |ns| ==> IsNumber(ns[k])
  {
    if ts == [] then []
    else if IsNumber(ts[0]) then [ts[0]] + Numbers(ts[1..])
    else Numbers(ts[1..])
  }

  /** The maximal digit runs of `s` from index `i` on, in order. */
  function DigitRuns(s: string, i: nat): (rs: seq<string>)
    requires i <= |s|
    decreases |s| - i
  {
    if i == |s| then []
    else if IsDigit(s[i]) then
      var n := DigitRun(s, i);
      [s[i..i + n]] + DigitRuns(s, i + n)
    else DigitRuns(s, i + 1)
  }

  lemma {:induction false} NumbersAppend(a: seq<string>, b: seq<string>)
    ensures Numbers(a + b) == Numbers(a) + Numbers(b)
  {
    if a == [] {
      assert a + b == b;
    } else {
      assert (a + b)[0] == a[0];
      assert (a + b)[1..] == a[1..] + b;
      NumbersAppend(a[1..], b);
    }
  }

  /** Popped operators are never numbers. */
  lemma {:induction false} PoppedHasNoNumbers(part: seq<char>)
    requires forall k :: 0 <= k < |part| ==> !IsDigit(part[k])
    ensures Numbers(Popped(part)) == []
    decreases |part|
  {
    if part != [] {
      PoppedHasNoNumbers(part[..|part| - 1]);
      assert Single(part[|part| - 1])[0] == part[|part| - 1];
    }
  }

  /** Popping operators adds no number to the output. */
  lemma PopKeepsNumbers(out: seq<string>, ops: seq<char>, out': seq<string>, rest: seq<char>)
    requires forall k :: 0 <= k < |ops| ==> !IsDigit(ops[k])
    requires PoppedOnto(out, ops, out', rest)
    ensures Numbers(out') == Numbers(out)
    ensures forall k :: 0 <= k < |rest| ==> !IsDigit(rest[k])
  {
    NumbersAppend(out, Popped(ops[|rest|..]));
    PoppedHasNoNumbers(ops[|rest|..]);
    assert Numbers(out) + [] == Numbers(out);
  }

  /** Each maximal digit run of the input becomes one output token, and the
      numbers leave in the order they were read; no other token is a number. */
  lemma {:induction false} OperandsInOrder(s: string, i: nat, out: seq<string>, ops: seq<char>)
    requires i <= |s|
    requires forall k :: 0 <= k < |ops| ==> !IsDigit(ops[k])
    requires Convert(s, i, out, ops).Ok?
    ensures Numbers(Convert(s, i, out, ops).value) == Numbers(out) + DigitRuns(s, i)
    decreases |s| - i
  {
    if i == |s| {
      FlushPops(out, ops);
      assert ops[0..] == ops;
      PopKeepsNumbers(out, ops, Flush(out, ops), []);
    } else if IsDigit(s[i]) {
      OperandsInDigits(s, i, out, ops);
    } else {
      var out', ops';
      if s[i] == '(' {
        out', ops' := out, ops + ['('];
      } else if s[i] == ')' {
        var (o, r) := PopUntilOpen(out, ops);
        PopUntilOpenPops(out, ops);
        PopKeepsNumbers(out, ops, o, r);
        out', ops' := o, r[..|r| - 1];
      } else {
        var (o, r) := PopWhileGeq(out, ops, Precedence(s[i]));
        PopWhileGeqPops(out, ops, Precedence(s[i]));
        PopKeepsNumbers(out, ops, o, r);
        out', ops' := o, r + [s[i]];
      }
      assert Convert(s, i, out, ops) == Convert(s, i + 1, out', ops');
      assert DigitRuns(s, i) == DigitRuns(s, i + 1);
      OperandsInOrder(s, i + 1, out', ops');
    }
  }

  /** The digit-run case of `OperandsInOrder`. */
  lemma {:induction false} OperandsInDigits(s: string, i: nat, out: seq<string>, ops: seq<char>)
    requires i < |s| && IsDigit(s[i])
    requires forall k :: 0 <= k < |ops| ==> !IsDigit(ops[k])
    requires Convert(s, i, out, ops).Ok?
    ensures Numbers(Convert(s, i, out, ops).value) == Numbers(out) + DigitRuns(s, i)
    decreases |s| - i, 0
  {
    var n := DigitRun(s, i);
    var run := s[i..i + n];
    assert Convert(s, i, out, ops) == Convert(s, i + n, out + [run], ops);
    assert DigitRuns(s, i) == [run] + DigitRuns(s, i + n);
    OperandsInOrder(s, i + n, out + [run], ops);
    NumbersAppend(out, [run]);
    assert Numbers([run]) == [run];
  }

  // ---------------------------------------------------------------------
  // Properties of the evaluator

  /** One step is recorded per token, and each step is exactly the effect
      of its token on the stack the previous step left; the last step's
      stack is the final stack. */
  lemma {:induction false} OneStepPerToken(tokens: seq<string>, i: nat, stack: seq<int>)
    requires i <= |tokens| && EvalFrom(tokens, i, stack).Ok?
    ensures var (final, steps) := EvalFrom(tokens, i, stack).value;
      && |steps| == |tokens| - i
      && (steps == [] ==> final == stack)
      && (steps != [] ==> EvalToken(tokens[i], stack) == Ok((steps[0].stack, steps[0])))
      && (forall k :: 0 < k < |steps| ==> EvalToken(tokens[i + k], steps[k - 1].stack) == Ok((steps[k].stack, steps[k])))
      && (steps != [] ==> steps[|steps| - 1].stack == final)
    decreases |tokens| - i
  {
    if i < |tokens| {
      var (stack', step) := EvalToken(tokens[i], stack).value;
      OneStepPerToken(tokens, i + 1, stack');
      var (final, more) := EvalFrom(tokens, i + 1, stack').value;
      var steps := [step] + more;
      assert EvalFrom(tokens, i, stack).value == (final, steps);
      forall k | 1 < k < |steps|
        ensures EvalToken(tokens[i + k], steps[k - 1].stack) == Ok((steps[k].stack, steps[k]))
      {
        assert tokens[i + k] == tokens[(i + 1) + (k - 1)];
      }
    }
  }

  /** An operator token needs two operands: with fewer on the stack it
      fails with a stack underflow, whatever the operator. */
  lemma OperatorNeedsTwoOperands(tokens: seq<string>, i: nat, stack: seq<int>)
    requires i < |tokens| && !IsNumber(tokens[i]) && |stack| < 2
    ensures EvalFrom(tokens, i, stack) == Err(StackUnderflow)
  {
  }

  /** An operator token other than `+`, `-`, `*` and `/` fails, after its
      two operands are taken, with an unknown-operator error. */
  lemma UnknownOperatorFails(tokens: seq<string>, i: nat, stack: seq<int>)
    requires i < |tokens| && !IsNumber(tokens[i]) && |stack| >= 2
    requires tokens[i] != "+" && tokens[i] != "-" && tokens[i] != "*" && tokens[i] != "/"
    ensures EvalFrom(tokens, i, stack) == Err(UnknownOperator(tokens[i]))
  {
  }

  /** More live operands than the stack's capacity overflow it: `k`
      consecutive numbers pushed on `|stack|` values fail once
      `|stack| + k` exceeds the capacity. */
  lemma {:induction false} OperandsOverflow(tokens: seq<string>, i: nat, k: nat, stack: seq<int>)
    requires i + k <= |tokens| && forall m :: i <= m < i + k ==> IsNumber(tokens[m])
    requires |stack| <= DefaultCapacity < |stack| + k
    ensures EvalFrom(tokens, i, stack) == Err(StackOverflow)
    decreases k
  {
    assert IsNumber(tokens[i]);
    if |stack| < DefaultCapacity {
      var v := DecimalValue(tokens[i]);
      OperandsOverflow(tokens, i + 1, k - 1, stack + [v]);
    }
  }

  /** With nothing to evaluate the final pop underflows. */
  lemma EmptyInputUnderflows(expression: string)
    requires forall k :: 0 <= k < |expression| ==> IsSpace(expression[k])
    ensures Evaluate(Split(expression)) == Err(StackUnderflow)
  {
    assert DropSpaces(expression) == [];
  }
}
