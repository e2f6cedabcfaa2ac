/**
 The profiler: a forest of timed steps, grown by properly nested `with profiler.step(...)` blocks.
 */
module Profiling {

  type Delay = d: real | d >= 0.0

  /** A program seen by the profiler: nested steps, with time passing around each, that may raise. */
  datatype Block =
    | Done
    | Raise
    | Step(name: string, before: Delay, body: Block, after: Delay, rest: Block)

  predicate Raises(b: Block) {
    match b
    case Done => false
    case Raise => true
    case Step(_, _, body, _, rest) => Raises(body) || Raises(rest)
  }

  datatype Parent = Root | Under(num: nat)

  /** A step as the program text has it: its name and the step it is inside of. */
  datatype Entry = Entry(name: string, parent: Parent)

  /** The steps a block goes through, in order, the first being number `next`. */
  function Trace(b: Block, parent: Parent, next: nat): seq<Entry> {
    match b
    case Done => []
    case Raise => []
    case Step(name, _, body, _, rest) =>
      var inside := Trace(body, Under(next), next + 1);
      [Entry(name, parent)] + inside + if Raises(body) then [] else Trace(rest, parent, next + 1 + |inside|)
  }

  // ----- what has been recorded -----

  datatype Rec = Rec(name: string, parent: Parent, start: real, end: real, isOpen: bool)

  /** The steps in order of entry, the numbers of the open ones, and the last clock reading. */
  datatype State = State(recs: seq<Rec>, stack: seq<nat>, now: real)

  function Top(st: State): Parent {
    if st.stack == [] then Root else Under(st.stack[|st.stack| - 1])
  }

  function Entered(st: State, name: string, clock: real): State {
    State(st.recs + [Rec(name, Top(st), clock, 0.0, true)], st.stack + [|st.recs|], clock)
  }

  /** `step` gets its end time, and the last step on the stack is popped. */
  function Exited(st: State, step: nat, clock: real): State
    requires st.stack != [] && step < |st.recs|
  {
    State(st.recs[step := st.recs[step].(end := clock, isOpen := false)], st.stack[..|st.stack| - 1], clock)
  }

  /** The steps directly inside a parent, in order. */
  function Children(recs: seq<Rec>, parent: Parent): seq<nat> {
    if recs == [] then []
    else
      var n := |recs| - 1;
      Children(recs[..n], parent) + if recs[n].parent == parent then [n] else []
  }

  /** Each step on the stack is open and inside the one below it. */
  ghost predicate Chained(recs: seq<Rec>, stack: seq<nat>) {
    && (forall k :: 0 <= k < |stack| ==> stack[k] < |recs| && recs[stack[k]].isOpen)
    && (stack != [] ==> recs[stack[0]].parent == Root)
    && (forall j, k :: 0 <= j < |stack| && k == j + 1 < |stack| ==> recs[stack[k]].parent == Under(stack[j]))
  }

  ghost predicate Ascending(stack: seq<nat>) {
    forall j, k :: 0 <= j < k < |stack| ==> stack[j] < stack[k]
  }

  ghost predicate OpenStacked(recs: seq<Rec>, stack: seq<nat>) {
    forall i :: 0 <= i < |recs| && recs[i].isOpen ==> i in stack
  }

  /** The stack is the chain of open steps, outermost first. */
  ghost predicate Stacked(st: State) {
    Chained(st.recs, st.stack) && Ascending(st.stack) && OpenStacked(st.recs, st.stack)
  }

  ghost predicate Inside(outer: Rec, inner: Rec) {
    outer.start <= inner.start && (!outer.isOpen ==> !inner.isOpen && inner.end <= outer.end)
  }

  /** A step is inside an earlier one, in time too. */
  ghost predicate Nested(recs: seq<Rec>) {
    && (forall i :: 0 <= i < |recs| && recs[i].parent.Under? ==> recs[i].parent.num < i)
    && (forall i, p :: 0 <= p < i < |recs| && recs[i].parent == Under(p) ==> Inside(recs[p], recs[i]))
  }

  /** Steps with one parent follow each other; only the last may be open. */
  ghost predicate Sequential(recs: seq<Rec>) {
    forall i, j :: 0 <= i < j < |recs| && recs[i].parent == recs[j].parent ==>
                     !recs[i].isOpen && recs[i].end <= recs[j].start
  }

  ghost predicate Clocked(st: State) {
    forall i :: 0 <= i < |st.recs| ==>
                  st.recs[i].start <= st.now && (!st.recs[i].isOpen ==> st.recs[i].start <= st.recs[i].end <= st.now)
  }

  ghost predicate Inv(st: State) {
    Stacked(st) && Nested(st.recs) && Sequential(st.recs) && Clocked(st)
  }

  /** Nothing inside the innermost open step is still open. */
  lemma InnermostClosed(st: State, i: nat)
    requires Stacked(st) && i < |st.recs| && st.recs[i].parent == Top(st)
    ensures !st.recs[i].isOpen
  {
    forall k | 0 <= k < |st.stack| ensures st.stack[k] != i {
      OnStackBelowTop(st, k);
    }
  }

  lemma OnStackBelowTop(st: State, k: nat)
    requires Stacked(st) && k < |st.stack|
    ensures st.recs[st.stack[k]].parent != Top(st)
  {
    if k > 0 {
      assert st.stack[k - 1] < st.stack[k] <= st.stack[|st.stack| - 1];
    }
  }

  lemma EnterChained(recs: seq<Rec>, stack: seq<nat>, r: Rec)
    requires Chained(recs, stack) && r.isOpen
    requires r.parent == if stack == [] then Root else Under(stack[|stack| - 1])
    ensures Chained(recs + [r], stack + [|recs|])
  {
    var more, s := recs + [r], stack + [|recs|];
    forall j, k | 0 <= j < |s| && k == j + 1 < |s| ensures more[s[k]].parent == Under(s[j]) {
      assert s[j] == stack[j];
      if k < |stack| {
        assert s[k] == stack[k];
      }
    }
  }

  lemma EnterStacked(st: State, name: string, clock: real)
    requires Stacked(st)
    ensures Stacked(Entered(st, name, clock))
  {
    var e := Entered(st, name, clock);
    EnterChained(st.recs, st.stack, e.recs[|st.recs|]);
    assert forall k :: 0 <= k < |st.stack| ==> st.stack[k] < |st.recs|;
    hide Chained;
    forall i | 0 <= i < |e.recs| && e.recs[i].isOpen ensures i in e.stack {
      assert e.stack[|st.stack|] == |st.recs|;
      if i < |st.recs| {
        assert i in st.stack;
      }
    }
  }

  lemma EnterKeeps(st: State, name: string, clock: real)
    requires Inv(st) && st.now <= clock
    ensures Inv(Entered(st, name, clock))
  {
    EnterStacked(st, name, clock);
    hide Top;
    var e := Entered(st, name, clock);
    TopOpen(st);
    forall i, j | 0 <= i < j < |e.recs| && e.recs[i].parent == e.recs[j].parent
      ensures !e.recs[i].isOpen && e.recs[i].end <= e.recs[j].start
    {
      if j == |st.recs| {
        InnermostClosed(st, i);
      }
    }
  }

  lemma TopOpen(st: State)
    requires Stacked(st)
    ensures Top(st).Under? ==> Top(st).num < |st.recs| && st.recs[Top(st).num].isOpen
  {
  }

  lemma ExitChained(recs: seq<Rec>, stack: seq<nat>, r: Rec)
    requires Chained(recs, stack) && Ascending(stack) && stack != []
    ensures stack[|stack| - 1] < |recs|
    ensures Chained(recs[stack[|stack| - 1] := r], stack[..|stack| - 1])
  {
    var fewer, s := recs[stack[|stack| - 1] := r], stack[..|stack| - 1];
    assert forall k :: 0 <= k < |s| ==> s[k] == stack[k] < stack[|stack| - 1];
  }

  ghost predicate IsTop(st: State, step: nat) {
    st.stack != [] && step == st.stack[|st.stack| - 1] && step < |st.recs|
  }

  lemma ExitStacked(st: State, step: nat, clock: real)
    requires Stacked(st) && IsTop(st, step)
    ensures Stacked(Exited(st, step, clock))
  {
    var e := Exited(st, step, clock);
    ExitChained(st.recs, st.stack, e.recs[step]);
    hide Chained;
    forall i | 0 <= i < |e.recs| && e.recs[i].isOpen ensures i in e.stack {
      var k :| 0 <= k < |st.stack| && st.stack[k] == i;
      assert e.stack[k] == i;
    }
  }

  lemma ExitNested(st: State, step: nat, clock: real)
    requires Inv(st) && st.now <= clock && IsTop(st, step)
    ensures Nested(Exited(st, step, clock).recs)
  {
    var e := Exited(st, step, clock);
    forall i, p | 0 <= p < i < |e.recs| && e.recs[i].parent == Under(p) ensures Inside(e.recs[p], e.recs[i]) {
      assert Inside(st.recs[p], st.recs[i]);
      if p == step {
        InnermostClosed(st, i);
      } else if i == step {
        TopParentOpen(st);
      }
    }
  }

  lemma ExitSequential(st: State, step: nat, clock: real)
    requires Inv(st) && IsTop(st, step)
    ensures Sequential(Exited(st, step, clock).recs)
  {
    var e := Exited(st, step, clock);
    TopOpen(st);
    forall i, j | 0 <= i < j < |e.recs| && e.recs[i].parent == e.recs[j].parent
      ensures !e.recs[i].isOpen && e.recs[i].end <= e.recs[j].start
    {
      assert !st.recs[i].isOpen && st.recs[i].end <= st.recs[j].start;
    }
  }

  lemma ExitKeeps(st: State, step: nat, clock: real)
    requires Inv(st) && st.now <= clock && IsTop(st, step)
    ensures Inv(Exited(st, step, clock))
  {
    ExitStacked(st, step, clock);
    ExitNested(st, step, clock);
    ExitSequential(st, step, clock);
    hide Stacked, Nested, Sequential;
  }

  lemma TopParentOpen(st: State)
    requires Stacked(st) && st.stack != []
    ensures var parent := st.recs[st.stack[|st.stack| - 1]].parent;
            parent.Under? ==> parent.num < |st.recs| && st.recs[parent.num].isOpen
  {
    var k := |st.stack| - 1;
    if k > 0 {
      assert st.recs[st.stack[k]].parent == Under(st.stack[k - 1]);
    }
  }

  // ----- the forest -----

  /** Each step is in the list of its parent and in no other, and in no list twice. */
  lemma {:induction false} EachStepOnce(recs: seq<Rec>, parent: Parent)
    ensures forall i :: 0 <= i < |recs| ==> (i in Children(recs, parent) <==> recs[i].parent == parent)
    ensures forall j, k :: 0 <= j < k < |Children(recs, parent)| ==> Children(recs, parent)[j] < Children(recs, parent)[k]
    ensures forall k :: 0 <= k < |Children(recs, parent)| ==> Children(recs, parent)[k] < |recs|
  {
    if recs != [] {
      EachStepOnce(recs[..|recs| - 1], parent);
    }
  }

  function Sum(recs: seq<Rec>, nums: seq<nat>): real
    requires forall k :: 0 <= k < |nums| ==> nums[k] < |recs|
  {
    if nums == [] then 0.0
    else
      var n := |nums| - 1;
      Sum(recs, nums[..n]) + (recs[nums[n]].end - recs[nums[n]].start)
  }

  lemma {:induction false} SumFits(recs: seq<Rec>, nums: seq<nat>, lo: real, hi: real)
    requires forall k :: 0 <= k < |nums| ==> nums[k] < |recs|
    requires forall k :: 0 <= k < |nums| ==> lo <= recs[nums[k]].start <= recs[nums[k]].end <= hi
    requires forall j, k :: 0 <= j < k < |nums| ==> recs[nums[j]].end <= recs[nums[k]].start
    requires lo <= hi
    ensures 0.0 <= Sum(recs, nums) <= hi - lo
  {
    if nums != [] {
      var n := |nums| - 1;
      SumFits(recs, nums[..n], lo, recs[nums[n]].start);
    }
  }

  /** A closed step lasts at least as long as the steps inside it together. */
  lemma ClosedCoversChildren(st: State, i: nat)
    requires Inv(st) && i < |st.recs| && !st.recs[i].isOpen
    ensures forall k :: 0 <= k < |Children(st.recs, Under(i))| ==> Children(st.recs, Under(i))[k] < |st.recs|
    ensures 0.0 <= Sum(st.recs, Children(st.recs, Under(i))) <= st.recs[i].end - st.recs[i].start
  {
    hide Stacked, Children, Sum;
    EachStepOnce(st.recs, Under(i));
    var kids := Children(st.recs, Under(i));
    forall k | 0 <= k < |kids| ensures st.recs[kids[k]].parent == Under(i) {
      assert kids[k] in kids;
    }
    SumFits(st.recs, kids, st.recs[i].start, st.recs[i].end);
  }

  // ----- runs -----

  function Entries(recs: seq<Rec>): seq<Entry> {
    seq(|recs|, i requires 0 <= i < |recs| => Entry(recs[i].name, recs[i].parent))
  }

  /** The state after a block; every `finally` is run, also when the body raises. */
  function Played(st: State, b: Block): (r: State)
    ensures r.stack == st.stack && |st.recs| <= |r.recs|
    decreases b
  {
    match b
    case Done => st
    case Raise => st
    case Step(name, before, body, after, rest) =>
      var inside := Played(Entered(st, name, st.now + before), body);
      var left := Exited(inside, |st.recs|, inside.now + after);
      Popped(st.stack, |st.recs|);
      if Raises(body) then left else Played(left, rest)
  }

  /** A step, run: entered, its body, left, and then the rest unless the body raised. */
  lemma PlayedStep(st: State, b: Block)
    requires b.Step?
    ensures var entered := Entered(st, b.name, st.now + b.before);
            var inside := Played(entered, b.body);
            && inside.stack == st.stack + [|st.recs|] && |st.recs| < |inside.recs|
            && entered.now == st.now + b.before
            && (var left := Exited(inside, |st.recs|, inside.now + b.after);
                && left.stack == st.stack && left.now == inside.now + b.after
                && Played(st, b) == if Raises(b.body) then left else Played(left, b.rest))
  {
    Popped(st.stack, |st.recs|);
  }

  lemma Popped(s: seq<nat>, x: nat)
    ensures (s + [x])[..|s + [x]| - 1] == s
  {
  }

  lemma PlayedEmpty(st: State, b: Block)
    requires !b.Step?
    ensures Played(st, b) == st
  {
  }

  /** Every nested run keeps the invariant, and time does not go back. */
  lemma {:induction false} RunKeeps(st: State, b: Block)
    requires Inv(st)
    ensures Inv(Played(st, b)) && st.now <= Played(st, b).now
    decreases b
  {
    hide Inv, Top;
    if b.Step? {
      var entered := Entered(st, b.name, st.now + b.before);
      EnterKeeps(st, b.name, st.now + b.before);
      RunKeeps(entered, b.body);
      var inside := Played(entered, b.body);
      ExitKeeps(inside, |st.recs|, inside.now + b.after);
      if !Raises(b.body) {
        RunKeeps(Exited(inside, |st.recs|, inside.now + b.after), b.rest);
      }
    } else {
      PlayedEmpty(st, b);
    }
  }

  /**
   Over every nested run the recorded steps are those of the block, in order and under the right
   parents, each entered once, and no earlier step is touched.
   */
  lemma {:induction false} RunRecordsBlock(st: State, b: Block)
    ensures Entries(Played(st, b).recs) == Entries(st.recs) + Trace(b, Top(st), |st.recs|)
    ensures Played(st, b).recs[..|st.recs|] == st.recs
    ensures forall i :: |st.recs| <= i < |Played(st, b).recs| ==> !Played(st, b).recs[i].isOpen
    decreases b
  {
    hide Entries, Trace, Top;
    if b.Step? {
      var entered := Entered(st, b.name, st.now + b.before);
      RunRecordsBlock(entered, b.body);
      var inside := Played(entered, b.body);
      var left := Exited(inside, |st.recs|, inside.now + b.after);
      Popped(st.stack, |st.recs|);
      StepRecorded(st, b, entered, inside, left);
      TraceStep(b, Top(st), |st.recs|);
      if !Raises(b.body) {
        RunRecordsBlock(left, b.rest);
        LaterKept(st, left, Played(left, b.rest));
        RestRecorded(st, b, left, Played(left, b.rest));
      }
    } else {
      PlayedEmpty(st, b);
      TraceEmpty(b, Top(st), |st.recs|);
    }
  }

  function StepTrace(b: Block, parent: Parent, next: nat): seq<Entry>
    requires b.Step?
  {
    [Entry(b.name, parent)] + Trace(b.body, Under(next), next + 1)
  }

  lemma TraceStep(b: Block, parent: Parent, next: nat)
    requires b.Step?
    ensures Raises(b.body) ==> Trace(b, parent, next) == StepTrace(b, parent, next)
    ensures !Raises(b.body) ==>
              Trace(b, parent, next) == StepTrace(b, parent, next) + Trace(b.rest, parent, next + |StepTrace(b, parent, next)|)
  {
  }

  lemma TraceEmpty(b: Block, parent: Parent, next: nat)
    requires !b.Step?
    ensures Trace(b, parent, next) == []
  {
  }

  lemma RestRecorded(st: State, b: Block, left: State, r: State)
    requires b.Step? && left.stack == st.stack
    requires Entries(left.recs) == Entries(st.recs) + StepTrace(b, Top(st), |st.recs|)
    requires Entries(r.recs) == Entries(left.recs) + Trace(b.rest, Top(left), |left.recs|)
    ensures Entries(r.recs) ==
            Entries(st.recs) + (StepTrace(b, Top(st), |st.recs|) + Trace(b.rest, Top(st), |st.recs| + |StepTrace(b, Top(st), |st.recs|)|))
  {
    hide Trace;
    assert |left.recs| == |Entries(left.recs)| == |st.recs| + |StepTrace(b, Top(st), |st.recs|)|;
  }

  lemma StepRecorded(st: State, b: Block, entered: State, inside: State, left: State)
    requires b.Step? && entered == Entered(st, b.name, st.now + b.before)
    requires inside.stack == entered.stack && |entered.recs| <= |inside.recs|
    requires Entries(inside.recs) == Entries(entered.recs) + Trace(b.body, Top(entered), |entered.recs|)
    requires inside.recs[..|entered.recs|] == entered.recs
    requires forall i :: |entered.recs| <= i < |inside.recs| ==> !inside.recs[i].isOpen
    requires left == Exited(inside, |st.recs|, inside.now + b.after)
    ensures Entries(left.recs) == Entries(st.recs) + StepTrace(b, Top(st), |st.recs|)
    ensures left.recs[..|st.recs|] == st.recs && left.stack == st.stack
    ensures forall i :: |st.recs| <= i < |left.recs| ==> !left.recs[i].isOpen
  {
    hide Trace;
    assert Entries(left.recs) == Entries(inside.recs);
    assert Entries(entered.recs) == Entries(st.recs) + [Entry(b.name, Top(st))];
    forall i | 0 <= i < |st.recs| ensures left.recs[i] == st.recs[i] {
      assert inside.recs[..|entered.recs|][i] == entered.recs[i];
    }
  }

  lemma LaterKept(st: State, left: State, r: State)
    requires |st.recs| <= |left.recs| <= |r.recs|
    requires left.recs[..|st.recs|] == st.recs && r.recs[..|left.recs|] == left.recs
    requires forall i :: |st.recs| <= i < |left.recs| ==> !left.recs[i].isOpen
    ensures r.recs[..|st.recs|] == st.recs
    ensures forall i :: |st.recs| <= i < |left.recs| ==> !r.recs[i].isOpen
  {
    forall i | 0 <= i < |left.recs| ensures r.recs[i] == left.recs[i] {
      assert r.recs[..|left.recs|][i] == left.recs[i];
    }
    assert r.recs[..|st.recs|] == left.recs[..|st.recs|];
  }

  // ----- times -----

  /** The time a block takes. */
  function Elapsed(b: Block): real {
    match b
    case Done => 0.0
    case Raise => 0.0
    case Step(_, before, body, after, rest) =>
      before + Elapsed(body) + after + if Raises(body) then 0.0 else Elapsed(rest)
  }

  /** The part of it spent inside the steps of the block itself. */
  function InSteps(b: Block): real {
    match b
    case Done => 0.0
    case Raise => 0.0
    case Step(_, _, body, after, rest) => Elapsed(body) + after + if Raises(body) then 0.0 else InSteps(rest)
  }

  datatype Span = Span(start: real, end: real)

  /** When each step of a block begun at `t` starts and ends. */
  function Timeline(b: Block, t: real): seq<Span> {
    match b
    case Done => []
    case Raise => []
    case Step(_, before, body, after, rest) =>
      var end := t + before + Elapsed(body) + after;
      var step := [Span(t + before, end)] + Timeline(body, t + before);
      if Raises(body) then step else step + Timeline(rest, end)
  }

  function Spans(recs: seq<Rec>): seq<Span> {
    seq(|recs|, i requires 0 <= i < |recs| => Span(recs[i].start, recs[i].end))
  }

  lemma SpansOfStep(st: State, b: Block, entered: State, inside: State, left: State)
    requires b.Step? && entered == Entered(st, b.name, st.now + b.before)
    requires inside.stack == entered.stack && |entered.recs| <= |inside.recs|
    requires Spans(inside.recs) == Spans(entered.recs) + Timeline(b.body, st.now + b.before)
    requires inside.now == st.now + b.before + Elapsed(b.body)
    requires left == Exited(inside, |st.recs|, inside.now + b.after)
    ensures left.now == st.now + b.before + Elapsed(b.body) + b.after
    ensures Spans(left.recs) == Spans(st.recs) +
            ([Span(st.now + b.before, st.now + b.before + Elapsed(b.body) + b.after)] + Timeline(b.body, st.now + b.before))
  {
    hide Timeline, Elapsed;
    var n := |st.recs|;
    forall i | 0 <= i < |left.recs| && i != n ensures Spans(left.recs)[i] == Spans(inside.recs)[i] {
    }
    assert Spans(inside.recs)[n] == Spans(entered.recs)[n] == Span(st.now + b.before, 0.0);
    assert forall i :: 0 <= i < n ==> Spans(inside.recs)[i] == Spans(entered.recs)[i] == Spans(st.recs)[i];
  }

  lemma TimelineStep(b: Block, t: real)
    requires b.Step?
    ensures var end := t + b.before + Elapsed(b.body) + b.after;
            var step := [Span(t + b.before, end)] + Timeline(b.body, t + b.before);
            && (Raises(b.body) ==> Timeline(b, t) == step && t + Elapsed(b) == end)
            && (!Raises(b.body) ==> Timeline(b, t) == step + Timeline(b.rest, end) && t + Elapsed(b) == end + Elapsed(b.rest))
  {
  }

  lemma Regroup(a: seq<Span>, b: seq<Span>, c: seq<Span>)
    ensures a + b + c == a + (b + c)
  {
  }

  lemma TimelineEmpty(b: Block, t: real)
    requires !b.Step?
    ensures Timeline(b, t) == [] && Elapsed(b) == 0.0
  {
  }

  /** Every step is recorded with the time at which it started and the time at which it ended. */
  lemma {:induction false} RunRecordsTimes(st: State, b: Block)
    ensures Played(st, b).now == st.now + Elapsed(b)
    ensures Spans(Played(st, b).recs) == Spans(st.recs) + Timeline(b, st.now)
    decreases b
  {
    hide Spans, Top, Timeline, Elapsed, Raises, Played, Entered, Exited;
    if b.Step? {
      PlayedStep(st, b);
      var entered := Entered(st, b.name, st.now + b.before);
      RunRecordsTimes(entered, b.body);
      var inside := Played(entered, b.body);
      var left := Exited(inside, |st.recs|, inside.now + b.after);
      EnteredOne(st, b.name, st.now + b.before);
      SpansOfStep(st, b, entered, inside, left);
      TimelineStep(b, st.now);
      if !Raises(b.body) {
        RunRecordsTimes(left, b.rest);
        Regroup(Spans(st.recs), [Span(st.now + b.before, left.now)] + Timeline(b.body, st.now + b.before), Timeline(b.rest, left.now));
      }
    } else {
      PlayedEmpty(st, b);
      TimelineEmpty(b, st.now);
    }
  }

  lemma EnteredOne(st: State, name: string, clock: real)
    ensures var e := Entered(st, name, clock); |e.recs| == |st.recs| + 1 && e.stack == st.stack + [|st.recs|]
  {
  }

  lemma {:induction false} SumConcat(recs: seq<Rec>, a: seq<nat>, b: seq<nat>)
    requires forall k :: 0 <= k < |a| ==> a[k] < |recs|
    requires forall k :: 0 <= k < |b| ==> b[k] < |recs|
    ensures Sum(recs, a + b) == Sum(recs, a) + Sum(recs, b)
    ensures |a| == 1 ==> Sum(recs, a) == recs[a[0]].end - recs[a[0]].start
  {
    assert |a| == 1 ==> Sum(recs, a[..0]) == 0.0;
    if b == [] {
      assert a + b == a;
    } else {
      var n := |b| - 1;
      assert (a + b)[..|a + b| - 1] == a + b[..n];
      SumConcat(recs, a, b[..n]);
    }
  }

  lemma {:induction false} SumSame(recs: seq<Rec>, more: seq<Rec>, nums: seq<nat>)
    requires forall k :: 0 <= k < |nums| ==> nums[k] < |recs| && nums[k] < |more| && recs[nums[k]] == more[nums[k]]
    ensures Sum(recs, nums) == Sum(more, nums)
  {
    if nums != [] {
      SumSame(recs, more, nums[..|nums| - 1]);
    }
  }

  lemma {:induction false} ChildrenKept(recs: seq<Rec>, more: seq<Rec>, parent: Parent)
    requires |recs| <= |more| && forall i :: 0 <= i < |recs| ==> more[i].parent == recs[i].parent
    requires forall i :: |recs| <= i < |more| ==> more[i].parent != parent
    ensures Children(more, parent) == Children(recs, parent)
  {
    if |more| == |recs| {
      ChildrenSame(more, recs, parent);
    } else {
      ChildrenKept(recs, more[..|more| - 1], parent);
    }
  }

  predicate Within(e: Entry, parent: Parent, next: nat) {
    e.parent == parent || (e.parent.Under? && e.parent.num >= next)
  }

  ghost predicate AllWithin(es: seq<Entry>, parent: Parent, next: nat) {
    forall i :: 0 <= i < |es| ==> Within(es[i], parent, next)
  }

  lemma WithinConcat(a: seq<Entry>, b: seq<Entry>, parent: Parent, next: nat)
    requires AllWithin(a, parent, next) && AllWithin(b, parent, next)
    ensures AllWithin(a + b, parent, next)
  {
  }

  lemma WithinStep(b: Block, parent: Parent, next: nat, later: nat, rest: seq<Entry>)
    requires b.Step? && AllWithin(Trace(b.body, Under(next), next + 1), Under(next), next + 1)
    requires next <= later && AllWithin(rest, parent, later)
    ensures AllWithin(StepTrace(b, parent, next), parent, next) && AllWithin(rest, parent, next)
  {
    hide Trace;
  }

  /** A block puts its steps under the parent it is given, or deeper. */
  lemma {:induction false} TraceParents(b: Block, parent: Parent, next: nat)
    ensures AllWithin(Trace(b, parent, next), parent, next)
    decreases b
  {
    hide Trace, AllWithin, StepTrace;
    if b.Step? {
      TraceStep(b, parent, next);
      TraceParents(b.body, Under(next), next + 1);
      var later := next + |StepTrace(b, parent, next)|;
      TraceParents(b.rest, parent, later);
      WithinStep(b, parent, next, later, Trace(b.rest, parent, later));
      WithinConcat(StepTrace(b, parent, next), Trace(b.rest, parent, later), parent, next);
    } else {
      TraceEmpty(b, parent, next);
      assert AllWithin([], parent, next) by { NoneWithin(parent, next); }
    }
  }

  lemma NoneWithin(parent: Parent, next: nat)
    ensures AllWithin([], parent, next)
  {
  }

  lemma OnlyDeeper(recs: seq<Rec>, more: seq<Rec>, body: Block, p: Parent, n: nat)
    requires |recs| == n + 1 <= |more| && more[..n + 1] == recs
    requires Entries(more) == Entries(recs) + Trace(body, Under(n), n + 1)
    requires p.Under? ==> p.num < n
    ensures forall i :: 0 <= i <= n ==> more[i] == recs[i]
    ensures forall i :: n < i < |more| ==> more[i].parent != p
  {
    hide Trace;
    TraceParents(body, Under(n), n + 1);
    forall i | 0 <= i <= n ensures more[i] == recs[i] {
      assert more[..n + 1][i] == recs[i];
    }
    forall i | n < i < |more| ensures more[i].parent != p {
      assert Entries(more)[i] == Trace(body, Under(n), n + 1)[i - n - 1];
    }
  }

  /** After a step nothing but the step itself is new under its parent, and nothing earlier has changed. */
  lemma StepIsChild(st: State, b: Block, entered: State, inside: State, left: State)
    requires Stacked(st) && b.Step? && entered == Entered(st, b.name, st.now + b.before)
    requires inside == Played(entered, b.body) && left == Exited(inside, |st.recs|, inside.now + b.after)
    ensures |st.recs| < |left.recs| && forall i :: 0 <= i < |st.recs| ==> left.recs[i] == st.recs[i]
    ensures left.recs[|st.recs|].start == st.now + b.before && left.recs[|st.recs|].end == inside.now + b.after
    ensures Children(left.recs, Top(st)) == Children(st.recs, Top(st)) + [|st.recs|]
  {
    hide Stacked, Top, Trace, Children, Played, Entries;
    var p, n := Top(st), |st.recs|;
    TopOpen(st);
    RunRecordsBlock(entered, b.body);
    TopOfEntered(st, b.name, st.now + b.before);
    OnlyDeeper(entered.recs, inside.recs, b.body, p, n);
    ChildrenKept(entered.recs, left.recs, p);
    ChildrenSnoc(st.recs, entered.recs[n], p);
  }

  /** What a step adds to the total of its parent. */
  lemma StepTotal(st: State, b: Block, entered: State, inside: State, left: State)
    requires Stacked(st) && b.Step? && entered == Entered(st, b.name, st.now + b.before)
    requires inside == Played(entered, b.body) && left == Exited(inside, |st.recs|, inside.now + b.after)
    ensures Sound(left.recs, Top(st)) && Sound(st.recs, Top(st))
    ensures Total(left.recs, Top(st)) == Total(st.recs, Top(st)) + Elapsed(b.body) + b.after
  {
    hide Stacked, Top, Children, Sum, Timeline, Elapsed, Played, Entered, Exited;
    var n := |st.recs|;
    StepIsChild(st, b, entered, inside, left);
    TimeInside(st, b, entered, inside);
    SoundAlways(st.recs, Top(st));
    SoundAlways(left.recs, Top(st));
    var kids := Children(st.recs, Top(st));
    assert forall k :: 0 <= k < |kids| ==> kids[k] < n < |left.recs|;
    SumSame(st.recs, left.recs, kids);
    SumConcat(left.recs, kids, [n]);
    SumConcat(left.recs, [n], []);
  }

  lemma TimeInside(st: State, b: Block, entered: State, inside: State)
    requires b.Step? && entered == Entered(st, b.name, st.now + b.before) && inside == Played(entered, b.body)
    ensures inside.now == st.now + b.before + Elapsed(b.body)
  {
    hide Timeline, Elapsed, Played;
    RunRecordsTimes(entered, b.body);
  }

  lemma InvStacked(st: State)
    requires Inv(st)
    ensures Stacked(st)
  {
  }

  lemma TopOfEntered(st: State, name: string, clock: real)
    ensures Top(Entered(st, name, clock)) == Under(|st.recs|)
  {
  }

  ghost predicate Sound(recs: seq<Rec>, parent: Parent) {
    forall k :: 0 <= k < |Children(recs, parent)| ==> Children(recs, parent)[k] < |recs|
  }

  /** The time of the steps directly inside a parent. */
  ghost function Total(recs: seq<Rec>, parent: Parent): real
    requires Sound(recs, parent)
  {
    Sum(recs, Children(recs, parent))
  }

  /** A run adds the time spent in its steps to the total of the step it is inside of. */
  lemma {:induction false} RunTotals(st: State, b: Block)
    requires Inv(st)
    ensures Sound(st.recs, Top(st)) && Sound(Played(st, b).recs, Top(st))
    ensures Total(Played(st, b).recs, Top(st)) == Total(st.recs, Top(st)) + InSteps(b)
    decreases b
  {
    hide Inv, Top, Sound, Total, Played, Entered, Exited, Elapsed;
    SoundAlways(st.recs, Top(st));
    if b.Step? {
      PlayedStep(st, b);
      var entered := Entered(st, b.name, st.now + b.before);
      var inside := Played(entered, b.body);
      var left := Exited(inside, |st.recs|, inside.now + b.after);
      InvStacked(st);
      StepTotal(st, b, entered, inside, left);
      EnterKeeps(st, b.name, st.now + b.before);
      RunKeeps(entered, b.body);
      ExitKeeps(inside, |st.recs|, inside.now + b.after);
      SameTop(left, st);
      if !Raises(b.body) {
        RunTotals(left, b.rest);
      }
    } else {
      PlayedEmpty(st, b);
    }
  }

  lemma SoundAlways(recs: seq<Rec>, parent: Parent)
    ensures Sound(recs, parent)
  {
    EachStepOnce(recs, parent);
  }

  lemma SameTop(a: State, b: State)
    requires a.stack == b.stack
    ensures Top(a) == Top(b)
  {
  }

  /** The total of a profiler that recorded a block is the time spent in the steps of the block. */
  lemma TotalOfBlock(b: Block, now: real)
    ensures Sound(Played(State([], [], now), b).recs, Root)
    ensures Total(Played(State([], [], now), b).recs, Root) == InSteps(b)
  {
    RunTotals(State([], [], now), b);
  }

  // ----- the classes -----

  lemma {:induction false} ChildrenSame(recs: seq<Rec>, other: seq<Rec>, parent: Parent)
    requires |recs| == |other| && forall i :: 0 <= i < |recs| ==> recs[i].parent == other[i].parent
    ensures Children(recs, parent) == Children(other, parent)
  {
    if recs != [] {
      ChildrenSame(recs[..|recs| - 1], other[..|recs| - 1], parent);
    }
  }

  lemma ChildrenSnoc(recs: seq<Rec>, r: Rec, parent: Parent)
    ensures Children(recs + [r], parent) == if r.parent == parent then Children(recs, parent) + [|recs|] else Children(recs, parent)
  {
    assert (recs + [r])[..|recs|] == recs;
  }

  class ProfileStep {
    const name: string
    const parent: ProfileStep?
    var startTime: real
    var endTime: real
    var children: seq<ProfileStep>

    constructor (name: string, parent: ProfileStep?)
      ensures this.name == name && this.parent == parent
      ensures startTime == 0.0 && endTime == 0.0 && children == []
    {
      this.name, this.parent := name, parent;
      startTime, endTime, children := 0.0, 0.0, [];
    }

    function DurationMs(): real
      reads this
    {
      (endTime - startTime) * 1000.0
    }
  }

  /** The objects with these numbers. */
  ghost predicate Are(all: seq<ProfileStep>, objects: seq<ProfileStep>, nums: seq<nat>) {
    && |objects| == |nums|
    && forall k :: 0 <= k < |nums| ==> nums[k] < |all| && objects[k] == all[nums[k]]
  }

  lemma AreExtends(all: seq<ProfileStep>, s: ProfileStep, objects: seq<ProfileStep>, nums: seq<nat>)
    requires Are(all, objects, nums)
    ensures Are(all + [s], objects, nums) && Are(all + [s], objects + [s], nums + [|all|])
  {
  }

  lemma InvNested(st: State)
    requires Inv(st)
    ensures Nested(st.recs)
  {
  }

  /** Nothing is inside a step that is not there yet. */
  lemma {:induction false} NoChildrenYet(recs: seq<Rec>, n: nat)
    requires Nested(recs) && n >= |recs|
    ensures Children(recs, Under(n)) == []
  {
    if recs != [] {
      var init := recs[..|recs| - 1];
      assert forall i :: 0 <= i < |init| ==> init[i] == recs[i];
      NoChildrenYet(init, n);
    }
  }

  /** The object records the step, and its list the steps inside it. */
  ghost predicate Holds(all: seq<ProfileStep>, recs: seq<Rec>, i: nat)
    requires i < |all| && i < |recs|
    reads all[i]
  {
    && all[i].name == recs[i].name
    && all[i].startTime == recs[i].start
    && all[i].endTime == recs[i].end
    && (recs[i].parent.Root? ==> all[i].parent == null)
    && (recs[i].parent.Under? ==> recs[i].parent.num < |all| && all[i].parent == all[recs[i].parent.num])
    && Are(all, all[i].children, Children(recs, Under(i)))
  }

  class Profiler {
    const enabled: bool
    var steps: seq<ProfileStep>
    var stack: seq<ProfileStep>
    ghost var all: seq<ProfileStep>
    ghost var state: State

    ghost predicate Represents()
      reads this, all
    {
      && |all| == |state.recs|
      && (forall i, j :: 0 <= i < j < |all| ==> all[i] != all[j])
      && (forall i :: 0 <= i < |all| ==> Holds(all, state.recs, i))
      && Are(all, steps, Children(state.recs, Root))
      && Are(all, stack, state.stack)
    }

    ghost predicate Valid()
      reads this, all
    {
      Represents() && Inv(state)
    }

    constructor (enabled: bool, ghost now: real)
      ensures Valid() && this.enabled == enabled && state == State([], [], now) && all == []
    {
      this.enabled := enabled;
      steps, stack, all, state := [], [], [], State([], [], now);
    }

    /** The innermost open step, as an object. */
    lemma TopObject()
      requires Valid()
      ensures stack == [] <==> Top(state) == Root
      ensures Top(state).Under? ==> Top(state).num < |all| && stack[|stack| - 1] == all[Top(state).num]
    {
      hide Inv, Children;
    }

    lemma SameSize()
      requires Valid()
      ensures |all| == |state.recs|
    {
    }

    lemma StackTop(n: nat)
      requires Valid() && state.stack != [] && state.stack[|state.stack| - 1] == n
      ensures n < |all| && stack != [] && stack[|stack| - 1] == all[n]
    {
      hide Inv, Children;
    }

    ghost predicate ListFacts(s: ProfileStep, r: Rec, i: nat)
      requires i < |all|
      reads this, all[i]
    {
      && Are(all + [s], all[i].children, Children(state.recs, Under(i)))
      && Are(all + [s], all[i].children + [s], Children(state.recs, Under(i)) + [|all|])
      && Children(state.recs + [r], Under(i)) ==
         (if r.parent == Under(i) then Children(state.recs, Under(i)) + [|all|] else Children(state.recs, Under(i)))
    }

    /** What recording one more step does to the lists. */
    lemma ListsExtend(s: ProfileStep, r: Rec, i: nat)
      requires Valid() && i < |all|
      ensures ListFacts(s, r, i)
    {
      hide Children, Inv;
      assert Holds(all, state.recs, i);
      AreExtends(all, s, all[i].children, Children(state.recs, Under(i)));
      ChildrenSnoc(state.recs, r, Under(i));
    }

    lemma TopsExtend(s: ProfileStep, r: Rec)
      requires Valid()
      ensures Are(all + [s], steps, Children(state.recs, Root))
      ensures Are(all + [s], steps + [s], Children(state.recs, Root) + [|all|])
      ensures Are(all + [s], stack + [s], state.stack + [|all|])
      ensures Children(state.recs + [r], Root) ==
              if r.parent == Root then Children(state.recs, Root) + [|all|] else Children(state.recs, Root)
      ensures r.parent != Under(|all|) ==> Children(state.recs + [r], Under(|all|)) == []
      ensures Are(all + [s], [], [])
    {
      hide Children, Inv;
      AreExtends(all, s, steps, Children(state.recs, Root));
      AreExtends(all, s, stack, state.stack);
      ChildrenSnoc(state.recs, r, Root);
      ChildrenSnoc(state.recs, r, Under(|all|));
      InvNested(state);
      NoChildrenYet(state.recs, |all|);
    }

    /** The part of `step` before the yield. */
    method Enter(name: string, clock: real) returns (step: ProfileStep?)
      requires Valid() && state.now <= clock
      modifies this, all
      ensures Valid()
      ensures !enabled ==> step == null && state == old(state) && all == old(all)
      ensures enabled ==> step != null && fresh(step) && all == old(all) + [step] && state == Entered(old(state), name, clock)
      ensures enabled ==> state.stack == old(state).stack + [|old(all)|] && state.now == clock
    {
      hide Children, Inv, Are;
      if !enabled {
        return null;
      }
      TopObject();
      var parent := if stack == [] then null else stack[|stack| - 1];
      var s := new ProfileStep(name, parent);
      s.startTime := clock;
      ghost var r := Rec(name, Top(state), clock, 0.0, true);
      TopsExtend(s, r);
      forall i | 0 <= i < |all| ensures ListFacts(s, r, i) {
        ListsExtend(s, r, i);
      }
      label Before:
      if parent != null {
        parent.children := parent.children + [s];
      } else {
        steps := steps + [s];
      }
      stack := stack + [s];
      step := s;
      EnterKeeps(state, name, clock);
      all, state := all + [s], Entered(state, name, clock);
      forall i | 0 <= i < |all| ensures Holds(all, state.recs, i) {
        if i < |all| - 1 {
          assert old@Before(Holds(all, state.recs, i) && ListFacts(s, r, i));
          assert all[i] == parent <==> r.parent == Under(i);
        }
      }
    }

    /** The `finally` part. */
    method Exit(step: ProfileStep, clock: real)
      requires Valid() && state.now <= clock && stack != [] && step == stack[|stack| - 1]
      modifies this, step
      ensures Valid() && all == old(all)
      ensures state.stack == old(state).stack[..|old(state).stack| - 1]
      ensures old(IsTop(state, state.stack[|state.stack| - 1]))
      ensures state == Exited(old(state), old(state).stack[|old(state).stack| - 1], clock) && state.now == clock
    {
      hide Children, Inv;
      step.endTime := clock;
      stack := stack[..|stack| - 1];
      ghost var num := state.stack[|state.stack| - 1];
      ExitKeeps(state, num, clock);
      ghost var recs := state.recs;
      state := Exited(state, num, clock);
      ChildrenSame(recs, state.recs, Root);
      forall i | 0 <= i < |all| ensures Holds(all, state.recs, i) {
        assert old(Holds(all, state.recs, i));
        assert i != num ==> all[i] != step;
        ChildrenSame(recs, state.recs, Under(i));
      }
    }

    /** Running a block: nested `with profiler.step(...)`. */
    method Profile(b: Block, clock: real) returns (after: real, raised: bool)
      requires Valid() && state.now <= clock && (enabled ==> state.now == clock)
      modifies this, all
      ensures Valid() && state.now <= after && (enabled ==> state.now == after)
      ensures raised == Raises(b) && clock <= after
      ensures state == if enabled then Played(old(state), b) else old(state)
      ensures old(all) <= all && forall i :: |old(all)| <= i < |all| ==> fresh(all[i])
      decreases b
    {
      hide Represents, Inv, Entered, Exited, IsTop;
      after, raised := clock, false;
      match b
      case Done =>
      case Raise =>
        raised := true;
      case Step(name, before, body, wait, rest) =>
        SameSize();
        var step := Enter(name, clock + before);
        after, raised := Profile(body, clock + before);
        after := after + wait;
        if step != null {
          StackTop(|old(all)|);
          Exit(step, after);
        }
        if !raised {
          after, raised := Profile(rest, after);
        }
    }

    /** The sum of the durations of the top-level steps. */
    method TotalDurationMs() returns (total: real)
      requires Valid()
      ensures Sound(state.recs, Root) && total == Total(state.recs, Root) * 1000.0
    {
      hide Children, Inv;
      ghost var nums := Children(state.recs, Root);
      SoundAlways(state.recs, Root);
      total := 0.0;
      for i := 0 to |steps|
        invariant total == Sum(state.recs, nums[..i]) * 1000.0
      {
        total := total + steps[i].DurationMs();
        assert nums[..i + 1][..i] == nums[..i];
        assert Holds(all, state.recs, nums[i]);
      }
      assert nums[..|nums|] == nums;
    }
  }
}
