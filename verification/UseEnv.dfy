/** Conditional blocks of the use-env language. The parser acts on each line as it reads
    it, with a stack of frames for the blocks it is in; here the stack is compared with an
    evaluator that has the blocks as a tree. */
module UseEnv {

  // ---- programs ----

  /** What a test of the environment says: a comparison may also be invalid. */
  datatype Answer = Yes | No | Invalid

  datatype Test =
    | Probe(id: nat)                        // a comparison, a pattern match, the value of an item
    | Defined(id: nat, symbol: bool)        // `defined', an error on anything but a symbol
    | Not(t: Test)
    | And(a: Test, b: Test)
    | Or(a: Test, b: Test)

  datatype Stmt =
    | Act(id: nat)                          // an assignment, print, include, ...
    | BadDefine                             // `define' of an invalid name
    | If(test: Test, body: Block, tail: Tail)
    | InTask(body: Block)

  datatype Block = Nil | Then(first: Stmt, rest: Block)

  datatype Tail =
    | Endif
    | Else(body: Block)
    | ElseIf(test: Test, body: Block, tail: Tail)

  /** What a run does to the world, in order. */
  datatype Event = Did(id: nat) | Tested(id: nat)
  type Trace = seq<Event>

  /** The outcome of a test depends on the environment, hence on all that happened. */
  type Oracle = (Trace, nat) -> Answer

  datatype Outcome = Outcome(trace: Trace, ok: bool)
  datatype Verdict = Verdict(trace: Trace, ok: bool, val: bool)

  // ---- the evaluator over the tree ----

  /** A test with an error that shows whether or not it is evaluated. */
  predicate Malformed(t: Test) {
    match t
    case Probe(_) => false
    case Defined(_, symbol) => !symbol
    case Not(u) => Malformed(u)
    case And(a, b) => Malformed(a) || Malformed(b)
    case Or(a, b) => Malformed(a) || Malformed(b)
  }

  /** Evaluate all of a test from left to right. */
  function Evaluate(t: Test, trace: Trace, o: Oracle): Verdict {
    match t
    case Probe(id) => Verdict(trace + [Tested(id)], o(trace, id) != Invalid, o(trace, id) == Yes)
    case Defined(id, symbol) =>
      if symbol then Verdict(trace + [Tested(id)], true, o(trace, id) == Yes) else Verdict(trace, false, false)
    case Not(u) =>
      var v := Evaluate(u, trace, o);
      v.(val := v.ok && !v.val)
    case And(a, b) =>
      var v := Evaluate(a, trace, o);
      if !v.ok then v.(val := false)
      else
        var w := Evaluate(b, v.trace, o);
        w.(val := w.ok && v.val && w.val)
    case Or(a, b) =>
      var v := Evaluate(a, trace, o);
      if !v.ok then v.(val := false)
      else
        var w := Evaluate(b, v.trace, o);
        w.(val := w.ok && (v.val || w.val))
  }

  /** A test that is not to be evaluated is false, if it is in order. */
  function Decide(t: Test, active: bool, trace: Trace, o: Oracle): Verdict {
    if active then Evaluate(t, trace, o) else Verdict(trace, !Malformed(t), false)
  }

  function ExecBlock(b: Block, active: bool, inTask: bool, trace: Trace, o: Oracle): Outcome {
    match b
    case Nil => Outcome(trace, true)
    case Then(first, rest) =>
      var r := Exec(first, active, inTask, trace, o);
      if r.ok then ExecBlock(rest, active, inTask, r.trace, o) else r
  }

  /** A task block is active in a task, and only there, whatever it stands in. */
  function Exec(s: Stmt, active: bool, inTask: bool, trace: Trace, o: Oracle): Outcome {
    match s
    case Act(id) => Outcome(if active then trace + [Did(id)] else trace, true)
    case BadDefine => Outcome(trace, false)
    case InTask(body) => ExecBlock(body, inTask, inTask, trace, o)
    case If(t, body, tail) =>
      var v := Decide(t, active, trace, o);
      if !v.ok then Outcome(v.trace, false)
      else
        var r := ExecBlock(body, v.val, inTask, v.trace, o);
        if r.ok then ExecTail(tail, active, v.val, inTask, r.trace, o) else r
  }

  /** The rest of a chain, of which a branch may have been taken. */
  function ExecTail(tail: Tail, active: bool, taken: bool, inTask: bool, trace: Trace, o: Oracle): Outcome {
    match tail
    case Endif => Outcome(trace, true)
    case Else(body) => ExecBlock(body, active && !taken, inTask, trace, o)
    case ElseIf(t, body, tail2) =>
      var v := Decide(t, active && !taken, trace, o);
      if !v.ok then Outcome(v.trace, false)
      else
        var r := ExecBlock(body, v.val, inTask, v.trace, o);
        if r.ok then ExecTail(tail2, active, taken || v.val, inTask, r.trace, o) else r
  }

  // ---- the parser ----

  /** The points of the text at which the parser acts on its stack. */
  datatype Token =
    | TAct(id: nat)
    | TBadDefine
    | TIf(test: Test)
    | TElse
    | TElseIf(test: Test)
    | TEndif
    | TInTask
    | TEndTask

  function Flatten(b: Block): seq<Token> {
    match b
    case Nil => []
    case Then(first, rest) => FlattenStmt(first) + Flatten(rest)
  }

  function FlattenStmt(s: Stmt): seq<Token> {
    match s
    case Act(id) => [TAct(id)]
    case BadDefine => [TBadDefine]
    case InTask(body) => [TInTask] + Flatten(body) + [TEndTask]
    case If(t, body, tail) => [TIf(t)] + Flatten(body) + FlattenTail(tail)
  }

  function FlattenTail(tail: Tail): seq<Token> {
    match tail
    case Endif => [TEndif]
    case Else(body) => [TElse] + Flatten(body) + [TEndif]
    case ElseIf(t, body, tail2) => [TElseIf(t)] + Flatten(body) + FlattenTail(tail2)
  }

  datatype Frame = Frame(val: bool, fallthru: bool)

  /** The innermost frame comes first. */
  type Stack = seq<Frame>

  /** condition () */
  predicate Condition(stack: Stack)
    requires stack != []
  {
    stack[0].val && !stack[0].fallthru
  }

  /** The tests ask condition () each time, and an inactive one is false. */
  function EvalTest(t: Test, active: bool, trace: Trace, o: Oracle): Verdict {
    match t
    case Probe(id) =>
      if active then Verdict(trace + [Tested(id)], o(trace, id) != Invalid, o(trace, id) == Yes)
      else Verdict(trace, true, false)
    case Defined(id, symbol) =>
      if !symbol then Verdict(trace, false, false)
      else if active then Verdict(trace + [Tested(id)], true, o(trace, id) == Yes)
      else Verdict(trace, true, false)
    case Not(u) =>
      var v := EvalTest(u, active, trace, o);
      v.(val := v.ok && active && !v.val)
    case And(a, b) =>
      var v := EvalTest(a, active, trace, o);
      if !v.ok then v.(val := false)
      else
        var w := EvalTest(b, active, v.trace, o);
        w.(val := w.ok && v.val && w.val)
    case Or(a, b) =>
      var v := EvalTest(a, active, trace, o);
      if !v.ok then v.(val := false)
      else
        var w := EvalTest(b, active, v.trace, o);
        w.(val := w.ok && (v.val || w.val))
  }

  function SetTop(stack: Stack, fallthru: bool): Stack
    requires stack != []
  {
    stack[0 := stack[0].(fallthru := fallthru)]
  }

  /** condition_push_if */
  function PushIf(stack: Stack, val: bool): Stack
    requires stack != []
  {
    [Frame(val, false)] + if val then SetTop(stack, true) else stack
  }

  /** condition_push_else_if, the old branch having been popped before its test. */
  function PushElseIf(stack: Stack, val: bool): Stack
    requires stack != []
  {
    if !Condition(stack) then [Frame(false, false)] + stack
    else if val then [Frame(true, false)] + SetTop(stack, true)
    else [Frame(false, false)] + stack
  }

  /** condition_push_else */
  function PushElse(stack: Stack): Stack
    requires |stack| > 1
  {
    [Frame(Condition(stack[1..]), false)] + stack[1..]
  }

  /** condition_pop_endif */
  function PopEndif(stack: Stack): Stack
    requires |stack| > 1
  {
    SetTop(stack[1..], false)
  }

  /** The state of the parser; it is stuck when a block ends that did not begin, which
      the grammar rules out. */
  datatype State =
    | Running(stack: Stack, trace: Trace)
    | Aborted(trace: Trace)
    | Stuck

  /** What reading one token does. */
  function Action(stack: Stack, trace: Trace, tok: Token, inTask: bool, o: Oracle): State
    requires stack != []
  {
    match tok
    case TAct(id) => Running(stack, if Condition(stack) then trace + [Did(id)] else trace)
    case TBadDefine => Aborted(trace)
    case TIf(t) =>
      var v := EvalTest(t, Condition(stack), trace, o);
      if v.ok then Running(PushIf(stack, v.val), v.trace) else Aborted(v.trace)
    case TElse => if |stack| > 1 then Running(PushElse(stack), trace) else Stuck
    case TElseIf(t) =>
      if |stack| > 1 then
        var v := EvalTest(t, Condition(stack[1..]), trace, o);
        if v.ok then Running(PushElseIf(stack[1..], v.val), v.trace) else Aborted(v.trace)
      else Stuck
    case TEndif => if |stack| > 1 then Running(PopEndif(stack), trace) else Stuck
    case TInTask => Running([Frame(inTask, false)] + stack, trace)
    case TEndTask => if |stack| > 1 then Running(stack[1..], trace) else Stuck
  }

  function Read(stack: Stack, trace: Trace, toks: seq<Token>, inTask: bool, o: Oracle): State
    requires stack != []
    decreases |toks|, 0
  {
    if toks == [] then Running(stack, trace)
    else ReadOn(Action(stack, trace, toks[0], inTask, o), toks[1..], inTask, o)
  }

  /** Read the rest, if the parser is still running. */
  function ReadOn(st: State, toks: seq<Token>, inTask: bool, o: Oracle): State
    decreases |toks|, 1
  {
    if !st.Running? then st
    else if st.stack == [] then Stuck
    else Read(st.stack, st.trace, toks, inTask, o)
  }

  /** The parser as it stands: cond_stack, the context, and what has been done. */
  class Parser {
    var stack: Stack
    var trace: Trace
    const inTask: bool
    const oracle: Oracle

    /** use_env_parser_init: outside of task blocks nothing is active in a task. */
    constructor (inTask: bool, oracle: Oracle)
      ensures stack == [Frame(!inTask, false)] && trace == []
      ensures this.inTask == inTask && this.oracle == oracle
    {
      this.inTask, this.oracle := inTask, oracle;
      stack, trace := [Frame(!inTask, false)], [];
    }

    method FallthruSet()
      requires stack != []
      modifies this`stack
      ensures stack == SetTop(old(stack), true)
    {
      stack := stack[0 := stack[0].(fallthru := true)];
    }

    method FallthruClear()
      requires stack != []
      modifies this`stack
      ensures stack == SetTop(old(stack), false)
    {
      stack := stack[0 := stack[0].(fallthru := false)];
    }

    method PushVal(val: bool)
      modifies this`stack
      ensures stack == [Frame(val, false)] + old(stack)
    {
      stack := [Frame(val, false)] + stack;
    }

    method Pop()
      requires stack != []
      modifies this`stack
      ensures stack == old(stack)[1..]
    {
      stack := stack[1..];
    }

    /** A test asks condition () for every part of it. */
    method DoTest(t: Test) returns (ok: bool, val: bool)
      requires stack != []
      modifies this`trace
      ensures EvalTest(t, Condition(stack), old(trace), oracle) == Verdict(trace, ok, val)
    {
      match t
      case Probe(id) =>
        ok, val := true, false;
        if Condition(stack) {
          var a := oracle(trace, id);
          trace := trace + [Tested(id)];
          ok, val := a != Invalid, a == Yes;
        }
      case Defined(id, symbol) =>
        ok, val := symbol, false;
        if symbol && Condition(stack) {
          val := oracle(trace, id) == Yes;
          trace := trace + [Tested(id)];
        }
      case Not(u) =>
        ok, val := DoTest(u);
        val := ok && Condition(stack) && !val;
      case And(a, b) =>
        ok, val := DoTest(a);
        if ok {
          var w;
          ok, w := DoTest(b);
          val := ok && val && w;
        } else {
          val := false;
        }
      case Or(a, b) =>
        ok, val := DoTest(a);
        if ok {
          var w;
          ok, w := DoTest(b);
          val := ok && (val || w);
        } else {
          val := false;
        }
    }

    /** The action of one token; the result is false when the parser gives up. */
    method Act(tok: Token) returns (ok: bool)
      requires stack != []
      requires tok in {TElse, TEndif, TEndTask} || tok.TElseIf? ==> |stack| > 1
      modifies this`stack, this`trace
      ensures stack != []
      ensures Action(old(stack), old(trace), tok, inTask, oracle)
           == if ok then Running(stack, trace) else Aborted(trace)
    {
      ok := true;
      match tok
      case TAct(id) =>
        if Condition(stack) {
          trace := trace + [Did(id)];
        }
      case TBadDefine =>
        ok := false;
      case TIf(t) =>
        var val;
        ok, val := DoTest(t);
        if ok {
          if val {
            FallthruSet();
          }
          PushVal(val);
        }
      case TElse =>
        Pop();
        var val := false;
        if Condition(stack) && !stack[0].fallthru {
          val := !val;
        }
        PushVal(val);
      case TElseIf(t) =>
        Pop();
        var val;
        ok, val := DoTest(t);
        if ok {
          if !Condition(stack) || stack[0].fallthru {
            val := false;
          } else if val {
            FallthruSet();
          }
          PushVal(val);
        }
      case TEndif =>
        Pop();
        FallthruClear();
      case TInTask =>
        PushVal(inTask);
      case TEndTask =>
        Pop();
    }

    /** Read a program to its end. */
    method Parse(toks: seq<Token>) returns (ok: bool)
      requires stack != []
      requires !Read(stack, trace, toks, inTask, oracle).Stuck?
      modifies this`stack, this`trace
      ensures Read(old(stack), old(trace), toks, inTask, oracle)
           == if ok then Running(stack, trace) else Aborted(trace)
    {
      ok := true;
      var i := 0;
      assert toks[i..] == toks;
      while i < |toks|
        invariant 0 <= i <= |toks| && stack != []
        invariant Read(old(stack), old(trace), toks, inTask, oracle) == Read(stack, trace, toks[i..], inTask, oracle)
      {
        assert toks[i..][0] == toks[i] && toks[i..][1..] == toks[i + 1..];
        ok := Act(toks[i]);
        if !ok {
          return;
        }
        i := i + 1;
      }
    }
  }

  // ---- the parser does what the evaluator does ----

  lemma {:induction false} TestsAgree(t: Test, active: bool, trace: Trace, o: Oracle)
    ensures EvalTest(t, active, trace, o) == Decide(t, active, trace, o)
  {
    match t
    case Probe(_) =>
    case Defined(_, _) =>
    case Not(u) => TestsAgree(u, active, trace, o);
    case And(a, b) =>
      TestsAgree(a, active, trace, o);
      TestsAgree(b, active, EvalTest(a, active, trace, o).trace, o);
    case Or(a, b) =>
      TestsAgree(a, active, trace, o);
      TestsAgree(b, active, EvalTest(a, active, trace, o).trace, o);
  }

  /** Going on after an outcome of the evaluator. */
  function Resume(r: Outcome, stack: Stack, toks: seq<Token>, inTask: bool, o: Oracle): State
    requires stack != []
  {
    if r.ok then Read(stack, r.trace, toks, inTask, o) else Aborted(r.trace)
  }

  lemma ReadFirst(stack: Stack, trace: Trace, tok: Token, toks: seq<Token>, inTask: bool, o: Oracle)
    requires stack != []
    ensures Read(stack, trace, [tok] + toks, inTask, o)
         == ReadOn(Action(stack, trace, tok, inTask, o), toks, inTask, o)
  {
    assert ([tok] + toks)[1..] == toks;
  }

  /** Reading a block has the effect of evaluating it, and the stack afterwards is what it
      was before, whatever follows. */
  lemma {:induction false} BlockAgrees(b: Block, stack: Stack, trace: Trace, toks: seq<Token>, inTask: bool, o: Oracle)
    requires stack != [] && !stack[0].fallthru
    ensures Read(stack, trace, Flatten(b) + toks, inTask, o)
         == Resume(ExecBlock(b, stack[0].val, inTask, trace, o), stack, toks, inTask, o)
    decreases b
  {
    match b
    case Nil => assert Flatten(b) + toks == toks;
    case Then(first, rest) =>
      assert Flatten(b) + toks == FlattenStmt(first) + (Flatten(rest) + toks);
      StmtAgrees(first, stack, trace, Flatten(rest) + toks, inTask, o);
      var r := Exec(first, stack[0].val, inTask, trace, o);
      if r.ok {
        BlockAgrees(rest, stack, r.trace, toks, inTask, o);
      }
  }

  lemma {:induction false} StmtAgrees(s: Stmt, stack: Stack, trace: Trace, toks: seq<Token>, inTask: bool, o: Oracle)
    requires stack != [] && !stack[0].fallthru
    ensures Read(stack, trace, FlattenStmt(s) + toks, inTask, o)
         == Resume(Exec(s, stack[0].val, inTask, trace, o), stack, toks, inTask, o)
    decreases s
  {
    match s
    case Act(id) => ReadFirst(stack, trace, TAct(id), toks, inTask, o);
    case BadDefine => ReadFirst(stack, trace, TBadDefine, toks, inTask, o);
    case InTask(body) =>
      var inner := [Frame(inTask, false)] + stack;
      var more := [TEndTask] + toks;
      assert FlattenStmt(s) + toks == [TInTask] + (Flatten(body) + more);
      ReadFirst(stack, trace, TInTask, Flatten(body) + more, inTask, o);
      BlockAgrees(body, inner, trace, more, inTask, o);
      var r := ExecBlock(body, inTask, inTask, trace, o);
      ReadFirst(inner, r.trace, TEndTask, toks, inTask, o);
      assert inner[1..] == stack;
    case If(t, body, tail) =>
      var v := Decide(t, stack[0].val, trace, o);
      TestsAgree(t, stack[0].val, trace, o);
      var more := FlattenTail(tail) + toks;
      assert FlattenStmt(s) + toks == [TIf(t)] + (Flatten(body) + more);
      ReadFirst(stack, trace, TIf(t), Flatten(body) + more, inTask, o);
      if v.ok {
        var inner := PushIf(stack, v.val);
        BlockAgrees(body, inner, v.trace, more, inTask, o);
        var r := ExecBlock(body, v.val, inTask, v.trace, o);
        if r.ok {
          TailAgrees(tail, inner, stack, v.val, r.trace, toks, inTask, o);
        }
      }
  }

  /** Within a chain the outer frame remembers in fallthru that a branch was taken; the
      end of the chain gives the frame back as it was. */
  lemma {:induction false} TailAgrees(tail: Tail, stack: Stack, outer: Stack, taken: bool, trace: Trace,
                                      toks: seq<Token>, inTask: bool, o: Oracle)
    requires |stack| > 1 && outer != [] && !outer[0].fallthru
    requires stack[1..] == if taken then SetTop(outer, true) else outer
    requires taken ==> outer[0].val
    ensures Read(stack, trace, FlattenTail(tail) + toks, inTask, o)
         == Resume(ExecTail(tail, outer[0].val, taken, inTask, trace, o), outer, toks, inTask, o)
    decreases tail
  {
    hide Read, Flatten, ExecBlock, Decide;
    match tail
    case Endif =>
      ReadFirst(stack, trace, TEndif, toks, inTask, o);
      assert PopEndif(stack) == outer;
    case Else(body) =>
      var more := [TEndif] + toks;
      assert FlattenTail(tail) + toks == [TElse] + (Flatten(body) + more);
      ReadFirst(stack, trace, TElse, Flatten(body) + more, inTask, o);
      var inner := PushElse(stack);
      BlockAgrees(body, inner, trace, more, inTask, o);
      var r := ExecBlock(body, inner[0].val, inTask, trace, o);
      ReadFirst(inner, r.trace, TEndif, toks, inTask, o);
      assert inner[1..] == stack[1..] && PopEndif(inner) == outer;
    case ElseIf(t, body, tail2) =>
      var active := outer[0].val && !taken;
      var v := Decide(t, active, trace, o);
      TestsAgree(t, active, trace, o);
      DecideInactive(t, trace, o);
      var more := FlattenTail(tail2) + toks;
      assert FlattenTail(tail) + toks == [TElseIf(t)] + (Flatten(body) + more);
      ReadFirst(stack, trace, TElseIf(t), Flatten(body) + more, inTask, o);
      if v.ok {
        var inner := PushElseIf(stack[1..], v.val);
        assert inner[0] == Frame(v.val, false);
        assert inner[1..] == if taken || v.val then SetTop(outer, true) else outer;
        BlockAgrees(body, inner, v.trace, more, inTask, o);
        var r := ExecBlock(body, v.val, inTask, v.trace, o);
        if r.ok {
          TailAgrees(tail2, inner, outer, taken || v.val, r.trace, toks, inTask, o);
        }
      }
  }

  lemma DecideInactive(t: Test, trace: Trace, o: Oracle)
    ensures !Decide(t, false, trace, o).val && Decide(t, false, trace, o).trace == trace
  {}

  /** Reading a whole file, in a task or not, runs the statements and tests that the
      evaluator runs, in that order, and leaves the stack as it found it. */
  lemma FileAgrees(b: Block, inTask: bool, o: Oracle)
    ensures var stack := [Frame(!inTask, false)];
            var r := ExecBlock(b, !inTask, inTask, [], o);
            Read(stack, [], Flatten(b), inTask, o) == if r.ok then Running(stack, r.trace) else Aborted(r.trace)
  {
    assert Flatten(b) + [] == Flatten(b);
    BlockAgrees(b, [Frame(!inTask, false)], [], [], inTask, o);
  }

  // ---- task blocks ----

  /** Nothing in the block is an error whether or not it is active. */
  predicate InOrder(b: Block) {
    match b
    case Nil => true
    case Then(first, rest) => StmtInOrder(first) && InOrder(rest)
  }

  predicate StmtInOrder(s: Stmt) {
    match s
    case Act(_) => true
    case BadDefine => false
    case InTask(body) => InOrder(body)
    case If(t, body, tail) => !Malformed(t) && InOrder(body) && TailInOrder(tail)
  }

  predicate TailInOrder(tail: Tail) {
    match tail
    case Endif => true
    case Else(body) => InOrder(body)
    case ElseIf(t, body, tail2) => !Malformed(t) && InOrder(body) && TailInOrder(tail2)
  }

  function Append(a: Block, b: Block): Block {
    match a
    case Nil => b
    case Then(first, rest) => Then(first, Append(rest, b))
  }

  /** The insides of the task blocks, one after the other. */
  function TaskParts(b: Block): Block {
    match b
    case Nil => Nil
    case Then(first, rest) => Append(StmtTaskParts(first), TaskParts(rest))
  }

  function StmtTaskParts(s: Stmt): Block {
    match s
    case Act(_) => Nil
    case BadDefine => Nil
    case InTask(body) => body
    case If(_, body, tail) => Append(TaskParts(body), TailTaskParts(tail))
  }

  function TailTaskParts(tail: Tail): Block {
    match tail
    case Endif => Nil
    case Else(body) => TaskParts(body)
    case ElseIf(_, body, tail2) => Append(TaskParts(body), TailTaskParts(tail2))
  }

  lemma {:induction false} ExecAppend(a: Block, b: Block, active: bool, inTask: bool, trace: Trace, o: Oracle)
    ensures var r := ExecBlock(a, active, inTask, trace, o);
            && (r.ok ==> ExecBlock(Append(a, b), active, inTask, trace, o) == ExecBlock(b, active, inTask, r.trace, o))
            && (!r.ok ==> ExecBlock(Append(a, b), active, inTask, trace, o) == r)
  {
    if a.Then? {
      var r := Exec(a.first, active, inTask, trace, o);
      if r.ok {
        ExecAppend(a.rest, b, active, inTask, r.trace, o);
      }
    }
  }

  /** A task reads its task blocks and ignores the rest of the file, even the conditions
      in which the blocks stand. */
  lemma {:induction false} TaskReadsTaskParts(b: Block, trace: Trace, o: Oracle)
    requires InOrder(b)
    ensures ExecBlock(b, false, true, trace, o) == ExecBlock(TaskParts(b), true, true, trace, o)
    decreases b
  {
    if b.Then? {
      StmtTask(b.first, trace, o);
      ExecAppend(StmtTaskParts(b.first), TaskParts(b.rest), true, true, trace, o);
      var r := Exec(b.first, false, true, trace, o);
      if r.ok {
        TaskReadsTaskParts(b.rest, r.trace, o);
      }
    }
  }

  lemma {:induction false} StmtTask(s: Stmt, trace: Trace, o: Oracle)
    requires StmtInOrder(s)
    ensures Exec(s, false, true, trace, o) == ExecBlock(StmtTaskParts(s), true, true, trace, o)
    decreases s
  {
    if s.If? {
      TaskReadsTaskParts(s.body, trace, o);
      ExecAppend(TaskParts(s.body), TailTaskParts(s.tail), true, true, trace, o);
      var r := ExecBlock(s.body, false, true, trace, o);
      if r.ok {
        TailTask(s.tail, r.trace, o);
      }
    }
  }

  lemma {:induction false} TailTask(tail: Tail, trace: Trace, o: Oracle)
    requires TailInOrder(tail)
    ensures ExecTail(tail, false, false, true, trace, o) == ExecBlock(TailTaskParts(tail), true, true, trace, o)
    decreases tail
  {
    match tail
    case Endif =>
    case Else(body) => TaskReadsTaskParts(body, trace, o);
    case ElseIf(_, body, tail2) =>
      TaskReadsTaskParts(body, trace, o);
      ExecAppend(TaskParts(body), TailTaskParts(tail2), true, true, trace, o);
      var r := ExecBlock(body, false, true, trace, o);
      if r.ok {
        TailTask(tail2, r.trace, o);
      }
  }

  /** Outside of a task, an inactive block does nothing, and so does a task block. */
  lemma {:induction false} InactiveOutside(b: Block, trace: Trace, o: Oracle)
    requires InOrder(b)
    ensures ExecBlock(b, false, false, trace, o) == Outcome(trace, true)
    ensures Exec(InTask(b), true, false, trace, o) == Outcome(trace, true)
    decreases b, 1
  {
    if b.Then? {
      StmtOutside(b.first, trace, o);
      InactiveOutside(b.rest, trace, o);
    }
  }

  lemma {:induction false} StmtOutside(s: Stmt, trace: Trace, o: Oracle)
    requires StmtInOrder(s)
    ensures Exec(s, false, false, trace, o) == Outcome(trace, true)
    decreases s, 0
  {
    match s
    case Act(_) =>
    case InTask(body) => InactiveOutside(body, trace, o);
    case If(_, body, tail) =>
      InactiveOutside(body, trace, o);
      TailOutside(tail, false, trace, o);
  }

  /** Nor does the rest of a chain after the branch that was taken. */
  lemma {:induction false} TailOutside(tail: Tail, active: bool, trace: Trace, o: Oracle)
    requires TailInOrder(tail)
    ensures ExecTail(tail, active, active, false, trace, o) == Outcome(trace, true)
    decreases tail, 0
  {
    match tail
    case Endif =>
    case Else(body) => InactiveOutside(body, trace, o);
    case ElseIf(_, body, tail2) =>
      InactiveOutside(body, trace, o);
      TailOutside(tail2, active, trace, o);
  }

  // ---- what a chain means where the environment stays as it is ----

  /** The answers where what is in yes holds and the rest does not. */
  function Fixed(yes: set<nat>): Oracle {
    (trace: Trace, id: nat) => if id in yes then Yes else No
  }

  /** The test as a formula. */
  predicate Holds(t: Test, yes: set<nat>) {
    match t
    case Probe(id) => id in yes
    case Defined(id, _) => id in yes
    case Not(u) => !Holds(u, yes)
    case And(a, b) => Holds(a, yes) && Holds(b, yes)
    case Or(a, b) => Holds(a, yes) || Holds(b, yes)
  }

  /** What a test looks at, from left to right. */
  function Looks(t: Test): Trace {
    match t
    case Probe(id) => [Tested(id)]
    case Defined(id, _) => [Tested(id)]
    case Not(u) => Looks(u)
    case And(a, b) => Looks(a) + Looks(b)
    case Or(a, b) => Looks(a) + Looks(b)
  }

  /** A test that is evaluated is true if its formula holds, and looks at all of its parts;
      one that is not is false and looks at none. */
  lemma {:induction false} TestMeans(t: Test, active: bool, trace: Trace, yes: set<nat>)
    requires !Malformed(t)
    ensures EvalTest(t, active, trace, Fixed(yes))
         == Verdict(trace + (if active then Looks(t) else []), true, active && Holds(t, yes))
  {
    var o := Fixed(yes);
    assert trace + [] == trace;
    match t
    case Probe(_) =>
    case Defined(_, _) =>
    case Not(u) =>
      TestMeans(u, active, trace, yes);
    case And(a, b) =>
      TestMeans(a, active, trace, yes);
      TestMeans(b, active, EvalTest(a, active, trace, o).trace, yes);
      assert trace + Looks(a) + Looks(b) == trace + (Looks(a) + Looks(b));
    case Or(a, b) =>
      TestMeans(a, active, trace, yes);
      TestMeans(b, active, EvalTest(a, active, trace, o).trace, yes);
      assert trace + Looks(a) + Looks(b) == trace + (Looks(a) + Looks(b));
  }

  /** The branch of the first test that holds, or else that of the else. */
  function Pick(t: Test, body: Block, tail: Tail, yes: set<nat>): Block
    decreases tail
  {
    if Holds(t, yes) then body
    else
      match tail
      case Endif => Nil
      case Else(b) => b
      case ElseIf(t2, b2, tail2) => Pick(t2, b2, tail2, yes)
  }

  /** What the tests look at up to the first one that holds. */
  function Tries(t: Test, tail: Tail, yes: set<nat>): Trace
    decreases tail
  {
    Looks(t) + if !Holds(t, yes) && tail.ElseIf? then Tries(tail.test, tail.tail, yes) else []
  }

  lemma DecideMeans(t: Test, active: bool, trace: Trace, yes: set<nat>)
    requires !Malformed(t)
    ensures Decide(t, active, trace, Fixed(yes))
         == Verdict(trace + (if active then Looks(t) else []), true, active && Holds(t, yes))
  {
    TestMeans(t, active, trace, yes);
    TestsAgree(t, active, trace, Fixed(yes));
  }

  /** Outside of tasks a chain runs the branch of the first test that holds, or else that of
      the else, and no other; and it evaluates the tests up to that one. */
  lemma {:induction false} ChainPicks(t: Test, body: Block, tail: Tail, trace: Trace, yes: set<nat>)
    requires StmtInOrder(If(t, body, tail))
    ensures Exec(If(t, body, tail), true, false, trace, Fixed(yes))
         == ExecBlock(Pick(t, body, tail, yes), true, false, trace + Tries(t, tail, yes), Fixed(yes))
    decreases tail
  {
    hide Looks, Holds, Decide, Fixed;
    var o, seen := Fixed(yes), trace + Looks(t);
    DecideMeans(t, true, trace, yes);
    if Holds(t, yes) {
      assert trace + Tries(t, tail, yes) == seen;
      var r := ExecBlock(body, true, false, seen, o);
      if r.ok { TailOutside(tail, true, r.trace, o); }
    } else {
      InactiveOutside(body, seen, o);
      match tail
      case Endif => assert trace + Tries(t, tail, yes) == seen;
      case Else(b) => assert trace + Tries(t, tail, yes) == seen;
      case ElseIf(t2, b2, tail2) =>
        ChainPicks(t2, b2, tail2, seen, yes);
        assert trace + Tries(t, tail, yes) == seen + Tries(t2, tail2, yes);
    }
  }
}
