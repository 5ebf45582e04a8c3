/** The shell's list of commands and operators, and the loop that runs it with a skip. */
module CommandRunner {
  import CommandLine
  import CommandParser

  datatype OpType = LogicalAnd | LogicalOr | Conveyor | BackgroundMode

  datatype Operand = Command(args: seq<string>) | Operator(name: OpType)

  // ----- From tokens to operands -----

  predicate IsOperator(s: string) {
    s == "||" || s == "&&" || s == "|" || s == "&"
  }

  function Name(s: string): OpType
    requires IsOperator(s)
  {
    if s == "|" then Conveyor else if s == "||" then LogicalOr else if s == "&" then BackgroundMode else LogicalAnd
  }

  function Symbol(op: OpType): (s: string)
    ensures IsOperator(s) && Name(s) == op
  {
    match op
    case LogicalAnd => "&&"
    case LogicalOr => "||"
    case Conveyor => "|"
    case BackgroundMode => "&"
  }

  predicate NoOperators(ts: seq<string>) {
    forall k :: 0 <= k < |ts| ==> !IsOperator(ts[k])
  }

  /** Commands and operators take turns, starting with a command. */
  predicate TakesTurns(ops: seq<Operand>) {
    forall k :: 0 <= k < |ops| ==>
      if k % 2 == 0 then ops[k].Command? && NoOperators(ops[k].args) else ops[k].Operator?
  }

  /** The last command, unlike the others, is there only if it has a word. */
  predicate Built(ops: seq<Operand>) {
    TakesTurns(ops) && (|ops| % 2 == 1 ==> ops[|ops| - 1].args != [])
  }

  function Shown(x: Operand): seq<string> {
    if x.Command? then x.args else [Symbol(x.name)]
  }

  function Flatten(ops: seq<Operand>): seq<string> {
    if ops == [] then [] else Shown(ops[0]) + Flatten(ops[1..])
  }

  lemma {:induction false} FlattenPush(ops: seq<Operand>, x: Operand)
    ensures Flatten(ops + [x]) == Flatten(ops) + Shown(x)
    decreases |ops|
  {
    hide Shown;
    if ops == [] {
      assert [x][1..] == [] && ops + [x] == [x];
      assert Flatten([x]) == Shown(x) + Flatten([]);
    } else {
      assert (ops + [x])[1..] == ops[1..] + [x];
      FlattenPush(ops[1..], x);
    }
  }

  /** The words before the first operator. */
  function Lead(ts: seq<string>): seq<string> {
    if ts == [] || IsOperator(ts[0]) then [] else [ts[0]] + Lead(ts[1..])
  }

  lemma {:induction false} LeadIs(args: seq<string>, rest: seq<string>)
    requires NoOperators(args) && (rest != [] ==> IsOperator(rest[0]))
    ensures Lead(args + rest) == args
    decreases |args|
  {
    hide IsOperator;
    if args == [] {
      assert args + rest == rest;
    } else {
      assert (args + rest)[1..] == args[1..] + rest;
      LeadIs(args[1..], rest);
    }
  }

  lemma FlattenTwo(a: Operand, b: Operand, rest: seq<Operand>)
    ensures Flatten([a, b] + rest) == Shown(a) + (Shown(b) + Flatten(rest))
  {
    hide Shown;
    assert ([a, b] + rest)[1..] == [b] + rest && ([b] + rest)[1..] == rest;
    assert Flatten([b] + rest) == Shown(b) + Flatten(rest);
  }

  lemma FlattenOne(a: Operand)
    ensures Flatten([a]) == Shown(a)
  {
    assert [a][1..] == [];
  }

  /** The first command of a list, and what follows the first operator. */
  lemma {:induction false} BuiltStarts(ops: seq<Operand>)
    requires Built(ops) && ops != []
    ensures ops[0].Command? && Lead(Flatten(ops)) == ops[0].args && Flatten(ops) != []
    ensures |ops| == 1 ==> Flatten(ops) == ops[0].args
    ensures |ops| > 1 ==> (ops[1].Operator? && Built(ops[2..])
      && Flatten(ops) == ops[0].args + ([Symbol(ops[1].name)] + Flatten(ops[2..])))
  {
    hide NoOperators, Lead, IsOperator, Flatten;
    var args := ops[0].args;
    assert |ops| > 1 ==> ops[1].Operator?;
    if |ops| == 1 {
      assert ops == [ops[0]] && args + [] == args;
      FlattenOne(ops[0]);
      LeadIs(args, []);
    } else {
      hide Built, TakesTurns;
      assert ops == [ops[0], ops[1]] + ops[2..];
      FlattenTwo(ops[0], ops[1], ops[2..]);
      LeadIs(args, [Symbol(ops[1].name)] + Flatten(ops[2..]));
    }
  }

  /** Tokens are grouped into operands in one way only. */
  lemma {:induction false} GroupingIsUnique(a: seq<Operand>, b: seq<Operand>)
    requires Built(a) && Built(b) && Flatten(a) == Flatten(b)
    ensures a == b
    decreases |a|
  {
    hide Built, Lead;
    if a != [] {
      BuiltStarts(a);
    }
    if b != [] {
      BuiltStarts(b);
    }
    if a != [] && b != [] {
      hide Flatten;
      if |a| > 1 && |b| > 1 {
        var x, y := [Symbol(a[1].name)] + Flatten(a[2..]), [Symbol(b[1].name)] + Flatten(b[2..]);
        assert x == Flatten(a)[|a[0].args|..] && y == Flatten(b)[|b[0].args|..];
        assert Symbol(a[1].name) == x[0] == y[0] == Symbol(b[1].name);
        assert Flatten(a[2..]) == x[1..] == y[1..] == Flatten(b[2..]);
        GroupingIsUnique(a[2..], b[2..]);
        assert a == [a[0], a[1]] + a[2..] && b == [b[0], b[1]] + b[2..];
      } else {
        assert |Flatten(a)| == |Flatten(b)|;
      }
    }
  }

  method BuildOperands(tokens: seq<string>) returns (operands: seq<Operand>)
    ensures Built(operands) && Flatten(operands) == tokens
  {
    hide IsOperator, Flatten;
    operands := [];
    var commandsToProcess := [];
    var i := 0;
    EmptyFlattens();
    while i < |tokens|
      invariant 0 <= i <= |tokens| && TakesTurns(operands) && |operands| % 2 == 0
      invariant NoOperators(commandsToProcess) && Flatten(operands) + commandsToProcess == tokens[..i]
    {
      assert tokens[..i + 1] == tokens[..i] + [tokens[i]];
      if !IsOperator(tokens[i]) {
        commandsToProcess := commandsToProcess + [tokens[i]];
      } else {
        var command, operator := Command(commandsToProcess), Operator(Name(tokens[i]));
        FlattenPush(operands, command);
        FlattenPush(operands + [command], operator);
        NameAndSymbol(tokens[i]);
        operands := operands + [command];
        commandsToProcess := [];
        operands := operands + [operator];
      }
      i := i + 1;
    }
    assert tokens[..i] == tokens;
    if |commandsToProcess| > 0 {
      FlattenPush(operands, Command(commandsToProcess));
      operands := operands + [Command(commandsToProcess)];
    }
  }

  lemma EmptyFlattens()
    ensures Flatten([]) == []
  {
  }

  lemma NameAndSymbol(s: string)
    requires IsOperator(s)
    ensures Symbol(Name(s)) == s
  {
  }

  // ----- What a list of commands means -----

  datatype Status = Exited(code: nat) | Killed(signal: nat)

  predicate Success(s: Status) {
    s.Exited? && s.code == 0
  }

  /** The status with which the last of a sequence of commands ends, after the ones before it. */
  type Oracle = seq<seq<string>> -> Status

  datatype Expr =
    | Cmd(args: seq<string>)
    | And(left: Expr, right: Expr)
    | Or(left: Expr, right: Expr)
    | Both(left: Expr, right: Expr)

  datatype Outcome = Outcome(trace: seq<seq<string>>, status: Status)

  /** Short-circuit evaluation. */
  function Eval(e: Expr, trace: seq<seq<string>>, oracle: Oracle): Outcome {
    match e
    case Cmd(args) => Outcome(trace + [args], oracle(trace + [args]))
    case And(l, r) =>
      var o := Eval(l, trace, oracle);
      if Success(o.status) then Eval(r, o.trace, oracle) else o
    case Or(l, r) =>
      var o := Eval(l, trace, oracle);
      if Success(o.status) then o else Eval(r, o.trace, oracle)
    case Both(l, r) => Eval(r, Eval(l, trace, oracle).trace, oracle)
  }

  /** What an operator does; to the loop, '|' and '&' merely stand between two commands. */
  function Combine(op: OpType, l: Expr, r: Expr): Expr {
    match op
    case LogicalAnd => And(l, r)
    case LogicalOr => Or(l, r)
    case Conveyor => Both(l, r)
    case BackgroundMode => Both(l, r)
  }

  /** The commands up to the n-th, all operators equally strong and grouped to the left. */
  function TreeOf(ops: seq<Operand>, n: nat): Expr
    requires TakesTurns(ops) && 2 * n < |ops|
  {
    var command := Cmd(ops[2 * n].args);
    if n == 0 then command else Combine(ops[2 * n - 1].name, TreeOf(ops, n - 1), command)
  }

  function Last(ops: seq<Operand>): nat
    requires ops != []
  {
    (|ops| - 1) / 2
  }

  // ----- The loop with the skip -----

  /** An operator keeps the command after it from being run. */
  predicate Blocks(op: OpType, s: Status) {
    (op == LogicalOr && Success(s)) || (op == LogicalAnd && !Success(s))
  }

  function After(ops: seq<Operand>, n: nat, oracle: Oracle): Outcome
    requires TakesTurns(ops) && 2 * n < |ops|
  {
    Eval(TreeOf(ops, n), [], oracle)
  }

  lemma AfterNext(ops: seq<Operand>, n: nat, oracle: Oracle)
    requires TakesTurns(ops) && 2 * (n + 1) < |ops|
    ensures After(ops, n + 1, oracle) == (
      var o := After(ops, n, oracle);
      if Blocks(ops[2 * n + 1].name, o.status) then o
      else Outcome(o.trace + [ops[2 * n + 2].args], oracle(o.trace + [ops[2 * n + 2].args])))
  {
    var tree, command, op := TreeOf(ops, n), Cmd(ops[2 * n + 2].args), ops[2 * n + 1];
    assert op.Operator?;
    var o := Eval(tree, [], oracle);
    assert TreeOf(ops, n + 1) == Combine(op.name, tree, command);
    hide TreeOf, TakesTurns;
    assert Eval(command, o.trace, oracle) == Outcome(o.trace + [command.args], oracle(o.trace + [command.args]));
  }

  lemma {:induction false} BlockedStays(ops: seq<Operand>, n: nat, m: nat, oracle: Oracle)
    requires TakesTurns(ops) && n < m && 2 * m < |ops|
    requires Blocks(ops[2 * n + 1].name, After(ops, n, oracle).status)
    requires forall k :: n <= k < m ==> ops[2 * k + 1] == ops[2 * n + 1]
    ensures After(ops, m, oracle) == After(ops, n, oracle)
    decreases m
  {
    hide After;
    if m > n + 1 {
      BlockedStays(ops, n, m - 1, oracle);
    }
    AfterNext(ops, m - 1, oracle);
  }

  /** The loop of run is at position i with this much done. */
  ghost predicate At(ops: seq<Operand>, oracle: Oracle, i: nat, trace: seq<seq<string>>, status: Status)
    requires TakesTurns(ops) && ops != []
  {
    if i == 0 then trace == []
    else if i >= |ops| then Outcome(trace, status) == After(ops, Last(ops), oracle)
    else Outcome(trace, status) == After(ops, (i - 1) / 2, oracle) && (i % 2 == 0 ==> !Blocks(ops[i - 1].name, status))
  }

  /** The loop that skips: from the operator at i on to the first operator of another name. */
  method Skip(ops: seq<Operand>, i: nat, op: OpType) returns (j: nat)
    requires i <= |ops|
    ensures i <= j <= |ops| && (forall k :: i <= k < j && ops[k].Operator? ==> ops[k].name == op)
    ensures j < |ops| ==> ops[j].Operator? && ops[j].name != op
  {
    j := i;
    while j < |ops|
      invariant i <= j <= |ops| && (forall k :: i <= k < j && ops[k].Operator? ==> ops[k].name == op)
    {
      if ops[j].Operator? && ops[j].name != op {
        break;
      }
      j := j + 1;
    }
  }

  /** One command run: the loop moves on to the operator after it. */
  lemma RunKeepsAt(ops: seq<Operand>, oracle: Oracle, i: nat, trace: seq<seq<string>>, status: Status)
    requires TakesTurns(ops) && i < |ops| && At(ops, oracle, i, trace, status) && ops[i].Command?
    ensures At(ops, oracle, i + 1, trace + [ops[i].args], oracle(trace + [ops[i].args]))
  {
    assert i % 2 == 0;
    var n := i / 2;
    assert i == 2 * n && (Last(ops) == n || i + 1 < |ops|);
    if n > 0 {
      AfterNext(ops, n - 1, oracle);
      assert (i - 1) / 2 == n - 1;
    } else {
      assert After(ops, 0, oracle) == Eval(Cmd(ops[0].args), [], oracle);
    }
  }

  /** An operator that lets the next command run. */
  lemma PassKeepsAt(ops: seq<Operand>, oracle: Oracle, i: nat, trace: seq<seq<string>>, status: Status)
    requires TakesTurns(ops) && i < |ops| && At(ops, oracle, i, trace, status)
    requires ops[i].Operator? && !Blocks(ops[i].name, status)
    ensures At(ops, oracle, i + 1, trace, status)
  {
    hide After;
    assert i % 2 == 1;
  }

  /** An operator that does not, with all that is skipped after it. */
  lemma SkipKeepsAt(ops: seq<Operand>, oracle: Oracle, i: nat, j: nat, trace: seq<seq<string>>, status: Status)
    requires TakesTurns(ops) && i < j <= |ops| && At(ops, oracle, i, trace, status)
    requires ops[i].Operator? && Blocks(ops[i].name, status)
    requires forall k :: i <= k < j && ops[k].Operator? ==> ops[k].name == ops[i].name
    requires j < |ops| ==> ops[j].Operator? && ops[j].name != ops[i].name
    ensures At(ops, oracle, j + 1, trace, status)
  {
    hide After;
    assert i % 2 == 1;
    var n, m := (i - 1) / 2, if j < |ops| then (j - 1) / 2 else Last(ops);
    assert j < |ops| ==> j % 2 == 1;
    if n < m {
      forall k | n <= k < m ensures ops[2 * k + 1] == ops[2 * n + 1] {
        assert i <= 2 * k + 1 < j && (2 * k + 1) % 2 == 1 && ops[2 * k + 1].Operator?;
      }
      BlockedStays(ops, n, m, oracle);
    }
  }

  /** Runs exactly the commands that short-circuit evaluation runs, with the same last status. */
  method Run(operands: seq<Operand>, oracle: Oracle) returns (trace: seq<seq<string>>, status: Status)
    requires operands != [] && TakesTurns(operands)
    ensures Outcome(trace, status) == Eval(TreeOf(operands, Last(operands)), [], oracle)
  {
    hide At, TreeOf, Eval, TakesTurns;
    trace := [];
    status := *;
    var i := 0;
    StartsAt(operands, oracle, status);
    while i < |operands|
      invariant 0 <= i && At(operands, oracle, i, trace, status)
      decreases |operands| - i
    {
      if operands[i].Command? {
        RunKeepsAt(operands, oracle, i, trace, status);
        trace := trace + [operands[i].args];
        status := oracle(trace);
      } else {
        var nextOp := operands[i].name;
        if Blocks(nextOp, status) {
          var j := Skip(operands, i, nextOp);
          SkipKeepsAt(operands, oracle, i, j, trace, status);
          i := j;
        } else {
          PassKeepsAt(operands, oracle, i, trace, status);
        }
      }
      i := i + 1;
    }
    EndsAt(operands, oracle, i, trace, status);
  }

  lemma StartsAt(ops: seq<Operand>, oracle: Oracle, status: Status)
    requires TakesTurns(ops) && ops != []
    ensures At(ops, oracle, 0, [], status)
  {
  }

  lemma EndsAt(ops: seq<Operand>, oracle: Oracle, i: nat, trace: seq<seq<string>>, status: Status)
    requires TakesTurns(ops) && ops != [] && i >= |ops| && At(ops, oracle, i, trace, status)
    ensures Outcome(trace, status) == Eval(TreeOf(ops, Last(ops)), [], oracle)
  {
  }

  lemma BuiltTakesTurns(ops: seq<Operand>)
    requires Built(ops)
    ensures TakesTurns(ops)
  {
  }

  // ----- What is run, by the tokens -----

  /** Rows of words, and an operator between each two of them or after the last. */
  function Interleaved(ws: seq<seq<string>>, os: seq<string>): seq<string> {
    if ws == [] then []
    else ws[0] + if os == [] then [] else [os[0]] + Interleaved(ws[1..], os[1..])
  }

  predicate TurnsFit(ws: seq<seq<string>>, os: seq<string>) {
    |os| == |ws| || (|os| == |ws| - 1 && ws[|os|] != [])
  }

  /** Operators by their text. */
  predicate OperatorText(s: string) {
    s in ["&&", "||", "|", "&"]
  }

  lemma OperatorsByText(s: string)
    ensures OperatorText(s) <==> IsOperator(s)
  {
  }

  ghost predicate PlainWords(w: seq<string>) {
    forall j :: 0 <= j < |w| ==> !OperatorText(w[j])
  }

  /** The tokens are these words and operators; behind the last operator there need not be any. */
  ghost predicate SplitAs(ts: seq<string>, ws: seq<seq<string>>, os: seq<string>) {
    && ts == Interleaved(ws, os) && TurnsFit(ws, os)
    && (forall k :: 0 <= k < |os| ==> OperatorText(os[k])) && (forall k :: 0 <= k < |ws| ==> PlainWords(ws[k]))
  }

  /** Whether a command is run after the operator o, if s is how the last command that was run ended. */
  predicate LetsRun(o: string, s: Status) {
    o == "|" || o == "&" || (o == "&&" && s == Exited(0)) || (o == "||" && s != Exited(0))
  }

  /** The k-th command is run or not by the operator before it; done[k] commands were run before. */
  ghost predicate RunOrNot(ws: seq<seq<string>>, os: seq<string>, oracle: Oracle, trace: seq<seq<string>>,
                           done: seq<nat>, k: nat)
    requires k < |ws| < |done| && |ws| <= |os| + 1
  {
    && done[k] <= done[k + 1] <= |trace|
    && if k == 0 || LetsRun(os[k - 1], oracle(trace[..done[k]]))
       then done[k + 1] == done[k] + 1 && trace[done[k]] == ws[k]
       else done[k + 1] == done[k]
  }

  ghost predicate RunsByOperators(ws: seq<seq<string>>, os: seq<string>, oracle: Oracle, trace: seq<seq<string>>,
                                  done: seq<nat>)
    requires |ws| <= |os| + 1
  {
    && |done| == |ws| + 1 && done[0] == 0 && done[|ws|] == |trace|
    && forall k :: 0 <= k < |ws| ==> RunOrNot(ws, os, oracle, trace, done, k)
  }

  function OperandsOf(ws: seq<seq<string>>, os: seq<string>): (ops: seq<Operand>)
    requires TurnsFit(ws, os) && forall k :: 0 <= k < |os| ==> IsOperator(os[k])
    ensures |ops| == |ws| + |os|
  {
    seq(|ws| + |os|, i requires 0 <= i < |ws| + |os| =>
      if i % 2 == 0 then Command(ws[i / 2]) else Operator(Name(os[i / 2])))
  }

  lemma OperandsAt(ws: seq<seq<string>>, os: seq<string>, k: nat)
    requires TurnsFit(ws, os) && forall j :: 0 <= j < |os| ==> IsOperator(os[j])
    ensures k < |ws| ==> OperandsOf(ws, os)[2 * k] == Command(ws[k])
    ensures k < |os| ==> OperandsOf(ws, os)[2 * k + 1] == Operator(Name(os[k]))
  {
    hide IsOperator, Name;
    assert (2 * k) % 2 == 0 && (2 * k) / 2 == k && (2 * k + 1) % 2 == 1 && (2 * k + 1) / 2 == k;
  }

  ghost predicate SameAt(a: seq<Operand>, b: seq<Operand>, k: nat) {
    (2 * k < |a| && 2 * k < |b| ==> a[2 * k] == b[2 * k])
    && (2 * k + 1 < |a| && 2 * k + 1 < |b| ==> a[2 * k + 1] == b[2 * k + 1])
  }

  lemma SameByTurns(a: seq<Operand>, b: seq<Operand>)
    requires |a| == |b| && forall k: nat :: SameAt(a, b, k)
    ensures a == b
  {
    forall i | 0 <= i < |a| ensures a[i] == b[i] {
      assert SameAt(a, b, i / 2);
      assert i == 2 * (i / 2) || i == 2 * (i / 2) + 1;
    }
  }

  lemma {:induction false} FlattenIsInterleaved(ws: seq<seq<string>>, os: seq<string>)
    requires TurnsFit(ws, os) && forall k :: 0 <= k < |os| ==> IsOperator(os[k])
    ensures Flatten(OperandsOf(ws, os)) == Interleaved(ws, os)
    decreases |ws|
  {
    hide IsOperator;
    var ops := OperandsOf(ws, os);
    if os == [] {
      if ws != [] {
        assert ops == [Command(ws[0])];
        FlattenOne(ops[0]);
        assert ws[0] + [] == ws[0];
      }
    } else {
      var rest := OperandsOf(ws[1..], os[1..]);
      forall i | 0 <= i < |rest| ensures ops[i + 2] == rest[i] {
        assert (i + 2) / 2 == i / 2 + 1 && (i + 2) % 2 == i % 2;
      }
      assert ops == [ops[0], ops[1]] + rest;
      FlattenTwo(ops[0], ops[1], rest);
      FlattenIsInterleaved(ws[1..], os[1..]);
      NameAndSymbol(os[0]);
    }
  }

  function WordsIn(ops: seq<Operand>): (ws: seq<seq<string>>)
    requires TakesTurns(ops)
    ensures |ws| == (|ops| + 1) / 2
    ensures forall k :: 0 <= k < |ws| ==> ops[2 * k] == Command(ws[k])
  {
    assert forall k :: 0 <= k < (|ops| + 1) / 2 ==> (2 * k) % 2 == 0 && ops[2 * k].Command?;
    seq((|ops| + 1) / 2, k requires 0 <= k < (|ops| + 1) / 2 => ops[2 * k].args)
  }

  function OperatorsIn(ops: seq<Operand>): (os: seq<string>)
    requires TakesTurns(ops)
    ensures |os| == |ops| / 2 && forall k :: 0 <= k < |os| ==> IsOperator(os[k])
    ensures forall k :: 0 <= k < |os| ==> ops[2 * k + 1].Operator? && os[k] == Symbol(ops[2 * k + 1].name)
  {
    assert forall k :: 0 <= k < |ops| / 2 ==> (2 * k + 1) % 2 == 1 && ops[2 * k + 1].Operator?;
    seq(|ops| / 2, k requires 0 <= k < |ops| / 2 => Symbol(ops[2 * k + 1].name))
  }

  lemma OperandsBack(ops: seq<Operand>)
    requires Built(ops)
    ensures TurnsFit(WordsIn(ops), OperatorsIn(ops)) && OperandsOf(WordsIn(ops), OperatorsIn(ops)) == ops
  {
    LastHasWords(ops);
    hide WordsIn, OperatorsIn, TakesTurns, Built, IsOperator, Name, TurnsFit, OperandsOf, Symbol;
    var ws, os := WordsIn(ops), OperatorsIn(ops);
    forall k: nat ensures SameAt(OperandsOf(ws, os), ops, k) {
      OperandsAt(ws, os, k);
      assert k < |ws| ==> ops[2 * k] == Command(ws[k]);
      if k < |os| {
        assert ops[2 * k + 1].Operator? && os[k] == Symbol(ops[2 * k + 1].name);
      }
    }
    SameByTurns(OperandsOf(ws, os), ops);
  }

  lemma LastHasWords(ops: seq<Operand>)
    requires Built(ops)
    ensures TurnsFit(WordsIn(ops), OperatorsIn(ops))
  {
    hide WordsIn, OperatorsIn, NoOperators;
    if |ops| % 2 == 1 {
      var k := |ops| / 2;
      assert ops[2 * k] == Command(WordsIn(ops)[k]);
    }
  }

  /** A list of operands shows its words and operators. */
  lemma OperandsSplit(ops: seq<Operand>)
    requires Built(ops)
    ensures SplitAs(Flatten(ops), WordsIn(ops), OperatorsIn(ops))
  {
    OperandsBack(ops);
    hide Flatten, Interleaved, WordsIn, OperatorsIn, IsOperator, OperatorText, TurnsFit;
    var ws, os := WordsIn(ops), OperatorsIn(ops);
    FlattenIsInterleaved(ws, os);
    forall k | 0 <= k < |os| ensures OperatorText(os[k]) {
      OperatorsByText(os[k]);
    }
    forall k | 0 <= k < |ws| ensures PlainWords(ws[k]) {
      assert NoOperators(ops[2 * k].args);
      forall j | 0 <= j < |ws[k]| ensures !OperatorText(ws[k][j]) {
        OperatorsByText(ws[k][j]);
      }
    }
  }

  /** Each further command is run after the operator before it, or not. */
  lemma {:induction false} AfterEnds(ops: seq<Operand>, n: nat, oracle: Oracle)
    requires TakesTurns(ops) && 2 * n < |ops|
    ensures var o := After(ops, n, oracle); o.trace != [] && o.status == oracle(o.trace)
  {
    if n > 0 {
      hide After, TreeOf;
      AfterEnds(ops, n - 1, oracle);
      AfterNext(ops, n - 1, oracle);
    }
  }

  lemma {:induction false} AfterGrows(ops: seq<Operand>, n: nat, m: nat, oracle: Oracle)
    requires TakesTurns(ops) && n <= m && 2 * m < |ops|
    ensures After(ops, n, oracle).trace <= After(ops, m, oracle).trace
    decreases m
  {
    hide After, TreeOf;
    if n < m {
      AfterGrows(ops, n, m - 1, oracle);
      AfterNext(ops, m - 1, oracle);
    }
  }

  lemma LetsRunUnlessBlocked(op: OpType, s: Status)
    ensures LetsRun(Symbol(op), s) <==> !Blocks(op, s)
  {
  }

  function DoneBefore(ops: seq<Operand>, oracle: Oracle, k: nat): nat
    requires TakesTurns(ops) && 2 * k <= |ops| + 1
  {
    if k == 0 then 0 else |After(ops, k - 1, oracle).trace|
  }

  /** The trace after the k-th command, as the beginning of what is run in the end. */
  lemma EvaluationStep(ops: seq<Operand>, oracle: Oracle, trace: seq<seq<string>>, done: seq<nat>, k: nat)
    requires TakesTurns(ops) && 2 * k < |ops| && |done| == |WordsIn(ops)| + 1
    requires done[k] == DoneBefore(ops, oracle, k) && done[k + 1] == DoneBefore(ops, oracle, k + 1)
    requires After(ops, k, oracle).trace <= trace && (k > 0 ==> After(ops, k - 1, oracle).trace <= trace)
    ensures RunOrNot(WordsIn(ops), OperatorsIn(ops), oracle, trace, done, k)
  {
    hide WordsIn, OperatorsIn, TakesTurns, TreeOf;
    assert ops[2 * k] == Command(WordsIn(ops)[k]);
    if k == 0 {
      FirstRuns(ops, oracle);
    } else {
      hide After;
      AfterNext(ops, k - 1, oracle);
      AfterEnds(ops, k - 1, oracle);
      OperatorAt(ops, k - 1);
      LetsRunUnlessBlocked(ops[2 * (k - 1) + 1].name, After(ops, k - 1, oracle).status);
      hide LetsRun, Blocks;
      var before := After(ops, k - 1, oracle).trace;
      DoneIs(ops, oracle, k);
      assert before <= trace && trace[..|before|] == before;
    }
  }

  lemma DoneIs(ops: seq<Operand>, oracle: Oracle, k: nat)
    requires TakesTurns(ops) && 0 < k && 2 * k <= |ops| + 1
    ensures DoneBefore(ops, oracle, k) == |After(ops, k - 1, oracle).trace|
  {
  }

  lemma OperatorAt(ops: seq<Operand>, k: nat)
    requires TakesTurns(ops) && 2 * k + 1 < |ops|
    ensures ops[2 * k + 1].Operator? && OperatorsIn(ops)[k] == Symbol(ops[2 * k + 1].name)
  {
    hide TakesTurns;
    var o := OperatorsIn(ops)[k];
  }

  lemma FirstRuns(ops: seq<Operand>, oracle: Oracle)
    requires TakesTurns(ops) && ops != []
    ensures ops[0].Command? && After(ops, 0, oracle).trace == [ops[0].args]
  {
  }

  lemma TraceRunsByOperators(ops: seq<Operand>, oracle: Oracle, n: nat) returns (done: seq<nat>)
    requires TakesTurns(ops) && n == |WordsIn(ops)| > 0
    ensures RunsByOperators(WordsIn(ops), OperatorsIn(ops), oracle, After(ops, n - 1, oracle).trace, done)
  {
    hide DoneBefore, WordsIn, OperatorsIn, RunOrNot, TakesTurns, After;
    done := seq(n + 1, k requires 0 <= k <= n => DoneBefore(ops, oracle, k));
    var trace := After(ops, n - 1, oracle).trace;
    DoneAtEnds(ops, oracle, n);
    forall k | 0 <= k < n ensures RunOrNot(WordsIn(ops), OperatorsIn(ops), oracle, trace, done, k) {
      AfterGrows(ops, k, n - 1, oracle);
      if k > 0 {
        AfterGrows(ops, k - 1, n - 1, oracle);
      }
      EvaluationStep(ops, oracle, trace, done, k);
    }
  }

  /** Evaluation runs a command exactly if the operator before it lets it run. */
  lemma EvaluationRunsByOperators(ops: seq<Operand>, oracle: Oracle) returns (done: seq<nat>)
    requires TakesTurns(ops) && ops != []
    ensures var o := Eval(TreeOf(ops, Last(ops)), [], oracle);
      RunsByOperators(WordsIn(ops), OperatorsIn(ops), oracle, o.trace, done)
      && o.trace != [] && o.status == oracle(o.trace)
  {
    hide TreeOf, TakesTurns, After, RunsByOperators, Eval, Last;
    LastAfter(ops, oracle);
    var n := |WordsIn(ops)|;
    AfterEnds(ops, n - 1, oracle);
    done := TraceRunsByOperators(ops, oracle, n);
  }

  lemma LastAfter(ops: seq<Operand>, oracle: Oracle)
    requires TakesTurns(ops) && ops != []
    ensures |WordsIn(ops)| > 0 && 2 * (|WordsIn(ops)| - 1) < |ops|
    ensures After(ops, |WordsIn(ops)| - 1, oracle) == Eval(TreeOf(ops, Last(ops)), [], oracle)
  {
    hide TakesTurns, TreeOf, Eval;
  }

  lemma DoneAtEnds(ops: seq<Operand>, oracle: Oracle, n: nat)
    requires TakesTurns(ops) && 0 < n && 2 * n <= |ops| + 1
    ensures DoneBefore(ops, oracle, 0) == 0 && DoneBefore(ops, oracle, n) == |After(ops, n - 1, oracle).trace|
  {
  }

  lemma SplitOperands(ts: seq<string>, ws: seq<seq<string>>, os: seq<string>)
    requires SplitAs(ts, ws, os)
    ensures forall k :: 0 <= k < |os| ==> IsOperator(os[k])
    ensures Built(OperandsOf(ws, os)) && Flatten(OperandsOf(ws, os)) == ts
  {
    hide Interleaved, Flatten, OperatorText, IsOperator, Name;
    forall k | 0 <= k < |os| ensures IsOperator(os[k]) {
      OperatorsByText(os[k]);
    }
    FlattenIsInterleaved(ws, os);
    var ops := OperandsOf(ws, os);
    forall k | 0 <= k < |ops|
      ensures if k % 2 == 0 then ops[k].Command? && NoOperators(ops[k].args) else ops[k].Operator?
    {
      if k % 2 == 0 {
        assert ops[k].args == ws[k / 2] && PlainWords(ws[k / 2]);
        forall j | 0 <= j < |ws[k / 2]| ensures !IsOperator(ws[k / 2][j]) {
          OperatorsByText(ws[k / 2][j]);
        }
      }
    }
  }

  lemma OperandsShowWords(ws: seq<seq<string>>, os: seq<string>)
    requires TurnsFit(ws, os) && forall k :: 0 <= k < |os| ==> IsOperator(os[k])
    requires TakesTurns(OperandsOf(ws, os))
    ensures WordsIn(OperandsOf(ws, os)) == ws && OperatorsIn(OperandsOf(ws, os)) == os
  {
    hide IsOperator, Name, Symbol, TakesTurns, OperandsOf, TurnsFit, WordsIn, OperatorsIn;
    var ops := OperandsOf(ws, os);
    WordsAndOperators(ws, os);
    forall k | 0 <= k < |ws| ensures WordsIn(ops)[k] == ws[k] {
      OperandsAt(ws, os, k);
      assert ops[2 * k] == Command(WordsIn(ops)[k]);
    }
    forall k | 0 <= k < |os| ensures OperatorsIn(ops)[k] == os[k] {
      OperandsAt(ws, os, k);
      assert OperatorsIn(ops)[k] == Symbol(ops[2 * k + 1].name);
      NameAndSymbol(os[k]);
    }
  }

  lemma WordsAndOperators(ws: seq<seq<string>>, os: seq<string>)
    requires TurnsFit(ws, os) && forall k :: 0 <= k < |os| ==> IsOperator(os[k])
    requires TakesTurns(OperandsOf(ws, os))
    ensures |WordsIn(OperandsOf(ws, os))| == |ws| && |OperatorsIn(OperandsOf(ws, os))| == |os|
  {
    hide IsOperator, TakesTurns, OperandsOf;
  }

  /** There is only one way to split tokens at the operators. */
  lemma SplitIsUnique(ts: seq<string>, ws: seq<seq<string>>, os: seq<string>, ws': seq<seq<string>>, os': seq<string>)
    requires SplitAs(ts, ws, os) && SplitAs(ts, ws', os')
    ensures ws == ws' && os == os'
  {
    SplitOperands(ts, ws, os);
    SplitOperands(ts, ws', os');
    hide Interleaved, Flatten, Built, IsOperator;
    GroupingIsUnique(OperandsOf(ws, os), OperandsOf(ws', os'));
    BuiltTakesTurns(OperandsOf(ws, os));
    OperandsShowWords(ws, os);
    OperandsShowWords(ws', os');
  }

  /** One line of input: read, grouped and run. */
  method RunLine(parser: CommandParser.Parser, command: string, oracle: Oracle)
    returns (trace: seq<seq<string>>, status: Status,
             ghost ws: seq<seq<string>>, ghost os: seq<string>, ghost done: seq<nat>)
    modifies parser
    ensures CommandLine.Tokens(command) == [] ==> trace == []
    ensures forall ops :: Built(ops) && Flatten(ops) == CommandLine.Tokens(command) && ops != [] ==>
      Outcome(trace, status) == Eval(TreeOf(ops, Last(ops)), [], oracle)
    ensures SplitAs(CommandLine.Tokens(command), ws, os) && RunsByOperators(ws, os, oracle, trace, done)
    ensures trace != [] ==> status == oracle(trace)
  {
    hide Built, Flatten, Eval, TreeOf, CommandLine.Tokens, SplitAs, RunsByOperators;
    var tokens := parser.Parse(command);
    trace, status := [], *;
    ws, os, done := [], [], [0];
    var operands := BuildOperands(tokens);
    forall ops | Built(ops) && Flatten(ops) == tokens ensures ops == operands {
      GroupingIsUnique(ops, operands);
    }
    if operands != [] {
      BuiltStarts(operands);
    }
    NothingToRun(oracle);
    if |tokens| == 0 {
      return;
    }
    EmptyFlattens();
    BuiltTakesTurns(operands);
    trace, status := Run(operands, oracle);
    ws, os := WordsIn(operands), OperatorsIn(operands);
    OperandsSplit(operands);
    done := EvaluationRunsByOperators(operands, oracle);
  }

  lemma NothingToRun(oracle: Oracle)
    ensures SplitAs([], [], []) && RunsByOperators([], [], oracle, [], [0])
  {
  }
}
