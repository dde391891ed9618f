/** Bounded fan-out (cluster/routing.go, propagation/distributed.go) as a step system: one task for
    each node, a semaphore of limited capacity, and any interleaving of the tasks' steps. */
module FanOut {
  import opened Wrappers
  import opened Sequences
  import opened Sorting
  import Text

  /** Calling and Returned tasks hold a place of the semaphore. A Bailed task gave up on it. */
  datatype Status = Waiting | Calling | Returned | Finished | Bailed

  /** What a task records for its node. */
  datatype Entry<T> = Entry(node: string, outcome: Result<T, string>)

  datatype Fan<T> = Fan(
    tasks: seq<Status>, slots: seq<Option<Entry<T>>>, order: seq<nat>, calls: seq<nat>, cancelled: bool)

  datatype Step<T> =
    | Acquire(i: nat)
    | Record(i: nat, outcome: Result<T, string>)
    | Release(i: nat)
    | Cancel
    | Bail(i: nat)

  function Capacity(limit: int): (n: nat)
    ensures limit > 0 ==> n == limit
    ensures limit < 1 ==> n == 4
  {
    if limit <= 0 then 4 else limit
  }

  predicate Holds(s: Status) { s == Calling || s == Returned }

  predicate Over(s: Status) { s == Finished || s == Bailed }

  predicate Recorded(s: Status) { s == Returned || Over(s) }

  function Holders<T>(f: Fan<T>): set<nat> { set i | 0 <= i < |f.tasks| && Holds(f.tasks[i]) }

  function Start<T>(nodes: seq<string>): Fan<T> {
    Fan(seq(|nodes|, _ => Waiting), seq(|nodes|, _ => None), [], seq(|nodes|, _ => 0), false)
  }

  /** selects: the task also waits for cancellation, as in PreviewNodes and ApplyNodes; FanOut does not. */
  predicate Enabled<T>(f: Fan<T>, limit: int, selects: bool, step: Step<T>) {
    match step
    case Acquire(i) => i < |f.tasks| && f.tasks[i] == Waiting && |Holders(f)| < Capacity(limit)
    case Record(i, _) => i < |f.tasks| && f.tasks[i] == Calling
    case Release(i) => i < |f.tasks| && f.tasks[i] == Returned
    case Cancel => true
    case Bail(i) => i < |f.tasks| && f.tasks[i] == Waiting && f.cancelled && selects
  }

  function WithSlot<T>(f: Fan<T>, i: nat, s: Status, entry: Entry<T>): Fan<T>
    requires i < |f.tasks| && i < |f.slots|
  {
    f.(tasks := f.tasks[i := s], slots := f.slots[i := Some(entry)], order := f.order + [i])
  }

  function After<T>(f: Fan<T>, nodes: seq<string>, limit: int, selects: bool, step: Step<T>): Fan<T>
    requires Enabled(f, limit, selects, step) && |f.tasks| == |f.slots| == |f.calls| == |nodes|
  {
    match step
    case Acquire(i) => f.(tasks := f.tasks[i := Calling], calls := f.calls[i := f.calls[i] + 1])
    case Record(i, outcome) => WithSlot(f, i, Returned, Entry(nodes[i], outcome))
    case Release(i) => f.(tasks := f.tasks[i := Finished])
    case Cancel => f.(cancelled := true)
    case Bail(i) => WithSlot(f, i, Bailed, Entry(nodes[i], Err("context canceled")))
  }

  /** What the invariant says of one task. */
  ghost predicate TaskInv<T>(f: Fan<T>, nodes: seq<string>, i: nat)
    requires |f.tasks| == |f.slots| == |f.calls| == |nodes| && i < |nodes|
  {
    && (f.slots[i].Some? <==> Recorded(f.tasks[i]))
    && (f.slots[i].Some? ==> f.slots[i].value.node == nodes[i])
    && (f.tasks[i] == Bailed ==> f.slots[i] == Some(Entry(nodes[i], Err("context canceled"))))
    && f.calls[i] == (if Holds(f.tasks[i]) || f.tasks[i] == Finished then 1 else 0)
  }

  ghost predicate Inv<T>(f: Fan<T>, nodes: seq<string>, limit: int) {
    && |f.tasks| == |f.slots| == |f.calls| == |nodes|
    && |Holders(f)| <= Capacity(limit)
    && (forall i {:trigger f.tasks[i]} {:trigger f.slots[i]} {:trigger f.calls[i]} ::
          0 <= i < |nodes| ==> TaskInv(f, nodes, i))
    && (forall i :: i in f.order <==> 0 <= i < |nodes| && Recorded(f.tasks[i]))
    && (forall k, l :: 0 <= k < l < |f.order| ==> f.order[k] != f.order[l])
  }

  ghost predicate Run<T>(fs: seq<Fan<T>>, steps: seq<Step<T>>, nodes: seq<string>, limit: int, selects: bool) {
    && |fs| == |steps| + 1
    && fs[0] == Start(nodes)
    && forall k :: 0 <= k < |steps| ==>
         && Enabled(fs[k], limit, selects, steps[k])
         && |fs[k].tasks| == |fs[k].slots| == |fs[k].calls| == |nodes|
         && fs[k + 1] == After(fs[k], nodes, limit, selects, steps[k])
  }

  lemma HoldersAfter<T>(f: Fan<T>, i: nat, s: Status)
    requires i < |f.tasks|
    ensures var f' := f.(tasks := f.tasks[i := s]);
      Holders(f') == if Holds(s) then Holders(f) + {i} else Holders(f) - {i}
  {
  }

  lemma TaskStep<T>(f: Fan<T>, nodes: seq<string>, limit: int, selects: bool, step: Step<T>, i: nat)
    requires Inv(f, nodes, limit) && Enabled(f, limit, selects, step) && i < |nodes|
    ensures TaskInv(After(f, nodes, limit, selects, step), nodes, i)
  {
    assert TaskInv(f, nodes, i);
  }

  lemma HoldersStep<T>(f: Fan<T>, nodes: seq<string>, limit: int, selects: bool, step: Step<T>)
    requires Inv(f, nodes, limit) && Enabled(f, limit, selects, step)
    ensures |Holders(After(f, nodes, limit, selects, step))| <= Capacity(limit)
  {
    var f' := After(f, nodes, limit, selects, step);
    if step.Cancel? {
      assert Holders(f') == Holders(f);
    } else {
      var i := step.i;
      HoldersAfter(f, i, f'.tasks[i]);
      assert Holders(f') == Holders(f.(tasks := f.tasks[i := f'.tasks[i]]));
      assert Holds(f.tasks[i]) <==> i in Holders(f);
    }
  }

  lemma OrderStep<T>(f: Fan<T>, nodes: seq<string>, limit: int, selects: bool, step: Step<T>)
    requires Inv(f, nodes, limit) && Enabled(f, limit, selects, step)
    ensures var f' := After(f, nodes, limit, selects, step);
      && (forall i :: i in f'.order <==> 0 <= i < |nodes| && Recorded(f'.tasks[i]))
      && (forall k, l :: 0 <= k < l < |f'.order| ==> f'.order[k] != f'.order[l])
  {
    if step.Record? || step.Bail? { assert step.i !in f.order; }
  }

  lemma InvStep<T>(f: Fan<T>, nodes: seq<string>, limit: int, selects: bool, step: Step<T>)
    requires Inv(f, nodes, limit) && Enabled(f, limit, selects, step)
    ensures Inv(After(f, nodes, limit, selects, step), nodes, limit)
  {
    var f' := After(f, nodes, limit, selects, step);
    HoldersStep(f, nodes, limit, selects, step);
    OrderStep(f, nodes, limit, selects, step);
    forall i | 0 <= i < |nodes| ensures TaskInv(f', nodes, i) { TaskStep(f, nodes, limit, selects, step, i); }
  }

  lemma {:induction false} InvHolds<T>(fs: seq<Fan<T>>, steps: seq<Step<T>>, nodes: seq<string>, limit: int, selects: bool, k: nat)
    requires Run(fs, steps, nodes, limit, selects) && k < |fs|
    ensures Inv(fs[k], nodes, limit)
  {
    if k == 0 {
      assert Holders(fs[0]) == {};
      forall i | 0 <= i < |nodes| ensures TaskInv(fs[0], nodes, i) {}
    } else {
      InvHolds(fs, steps, nodes, limit, selects, k - 1);
      InvStep(fs[k - 1], nodes, limit, selects, steps[k - 1]);
    }
  }

  /** In every interleaving at most the limit of callbacks runs at once, no node is called twice,
      and a node is called unless its task gave up. */
  lemma BoundedAndOnce<T>(fs: seq<Fan<T>>, steps: seq<Step<T>>, nodes: seq<string>, limit: int, selects: bool, k: nat)
    requires Run(fs, steps, nodes, limit, selects) && k < |fs|
    ensures |set i | 0 <= i < |fs[k].tasks| && fs[k].tasks[i] == Calling| <= Capacity(limit)
    ensures |fs[k].calls| == |fs[k].tasks| == |nodes|
    ensures forall i :: 0 <= i < |nodes| ==> fs[k].calls[i] <= 1
    ensures forall i :: 0 <= i < |nodes| && Over(fs[k].tasks[i]) ==> (fs[k].calls[i] == 0 <==> fs[k].tasks[i] == Bailed)
  {
    InvHolds(fs, steps, nodes, limit, selects, k);
    var calling := set i | 0 <= i < |fs[k].tasks| && fs[k].tasks[i] == Calling;
    SubsetSmaller(calling, Holders(fs[k]));
  }

  /** How far a task is from its end. */
  function Weight(s: Status): nat {
    match s
    case Waiting => 3
    case Calling => 2
    case Returned => 1
    case _ => 0
  }

  function Remaining(tasks: seq<Status>): nat {
    if tasks == [] then 0 else Weight(tasks[0]) + Remaining(tasks[1..])
  }

  lemma {:induction false} RemainingUpdate(tasks: seq<Status>, i: nat, s: Status)
    requires i < |tasks|
    ensures Remaining(tasks[i := s]) == Remaining(tasks) - Weight(tasks[i]) + Weight(s)
  {
    if i == 0 {
      assert tasks[i := s][1..] == tasks[1..];
    } else {
      RemainingUpdate(tasks[1..], i - 1, s);
      assert tasks[i := s][1..] == tasks[1..][i - 1 := s];
    }
  }

  /** Every step of a task brings the whole closer to its end, and while some task is not over some
      task has a step: no schedule runs on for ever or gets stuck. */
  lemma Progress<T>(f: Fan<T>, nodes: seq<string>, limit: int, selects: bool, step: Step<T>)
    requires Inv(f, nodes, limit)
    ensures Enabled(f, limit, selects, step) && !step.Cancel? ==>
      Remaining(After(f, nodes, limit, selects, step).tasks) < Remaining(f.tasks)
    ensures (exists i :: 0 <= i < |nodes| && !Over(f.tasks[i])) ==>
      exists next: Step<T> :: !next.Cancel? && Enabled(f, limit, selects, next)
  {
    if Enabled(f, limit, selects, step) && !step.Cancel? {
      RemainingUpdate(f.tasks, step.i, After(f, nodes, limit, selects, step).tasks[step.i]);
    }
    if i :| 0 <= i < |nodes| && !Over(f.tasks[i]) {
      if j :| 0 <= j < |nodes| && f.tasks[j] == Calling {
        assert Enabled(f, limit, selects, Record(j, Err("")));
      } else if j :| 0 <= j < |nodes| && f.tasks[j] == Returned {
        assert Enabled(f, limit, selects, Release(j));
      } else {
        assert Holders(f) == {};
        assert Enabled(f, limit, selects, Acquire(i));
      }
    }
  }

  // ----- The result list ------------------------------------------------------------------------

  predicate Complete<T>(f: Fan<T>) { forall i :: 0 <= i < |f.tasks| ==> Over(f.tasks[i]) }

  /** The entries in the order they were recorded, as FanOut appends them. */
  ghost function Collected<T>(f: Fan<T>, nodes: seq<string>, limit: int): (r: seq<Entry<T>>)
    requires Inv(f, nodes, limit)
    ensures |r| == |f.order| && forall k :: 0 <= k < |r| ==> f.order[k] < |nodes| && Some(r[k]) == f.slots[f.order[k]]
  {
    assert forall k :: 0 <= k < |f.order| ==> f.order[k] in f.order;
    seq(|f.order|, k requires 0 <= k < |f.order| => f.slots[f.order[k]].value)
  }

  /** The entries by position, as PreviewNodes and ApplyNodes keep them. */
  ghost function Slots<T>(f: Fan<T>, nodes: seq<string>, limit: int): (r: seq<Entry<T>>)
    requires Inv(f, nodes, limit) && Complete(f)
    ensures |r| == |nodes| && forall i :: 0 <= i < |nodes| ==> Some(r[i]) == f.slots[i]
  {
    seq(|nodes|, i requires 0 <= i < |nodes| => f.slots[i].value)
  }

  function ByNode<T>(): (Entry<T>, Entry<T>) -> bool {
    (a: Entry<T>, b: Entry<T>) => Text.Less(a.node, b.node)
  }

  lemma ByNodeIsOrder<T(!new)>()
    ensures StrictWeakOrder(ByNode<T>())
  {
    var less := ByNode<T>();
    forall a, b | less(a, b) ensures !less(b, a) { Text.LessAsymmetric(a.node, b.node); }
    forall a, b, c | less(a, c) ensures less(a, b) || less(b, c) {
      Text.LessTotal(a.node, b.node);
      if Text.Less(b.node, a.node) { Text.LessTransitive(b.node, a.node, c.node); }
    }
  }

  function Pick<T>(order: seq<nat>, s: seq<T>): (r: seq<T>)
    requires forall i :: i in order ==> i < |s|
    ensures |r| == |order| && forall k :: 0 <= k < |r| ==> order[k] in order && r[k] == s[order[k]]
  {
    assert forall k :: 0 <= k < |order| ==> order[k] in order;
    seq(|order|, k requires 0 <= k < |order| => s[order[k]])
  }

  ghost predicate Permutes(order: seq<nat>, n: nat) {
    && (forall i :: i in order <==> 0 <= i < n)
    && (forall k, l :: 0 <= k < l < |order| ==> order[k] != order[l])
  }

  lemma PermutesRest(order: seq<nat>, n: nat, k: nat)
    requires n > 0 && Permutes(order, n) && k < |order| && order[k] == n - 1
    ensures Permutes(order[..k] + order[k + 1..], n - 1)
  {
    var rest := order[..k] + order[k + 1..];
    forall m | 0 <= m < |rest| ensures 0 <= rest[m] < n - 1 {
      assert rest[m] == order[if m < k then m else m + 1] && rest[m] in order;
    }
    forall i | 0 <= i < n - 1 ensures i in rest {
      assert i in order;
      var l :| 0 <= l < |order| && order[l] == i;
      assert rest[if l < k then l else l - 1] == i;
    }
  }

  lemma PickRest<T>(order: seq<nat>, s: seq<T>, k: nat)
    requires s != [] && Permutes(order, |s|) && k < |order| && order[k] == |s| - 1
    requires Permutes(order[..k] + order[k + 1..], |s| - 1)
    ensures multiset(Pick(order[..k] + order[k + 1..], s[..|s| - 1])) == multiset(Pick(order, s)) - multiset{s[|s| - 1]}
  {
    var rest, picked := order[..k] + order[k + 1..], Pick(order, s);
    var without := picked[..k] + picked[k + 1..];
    var p := Pick(rest, s[..|s| - 1]);
    forall m | 0 <= m < |p| ensures p[m] == without[m] {
      assert rest[m] in rest;
    }
    assert p == without;
    RemoveAt(picked, k);
  }

  /** Picking every position once, in any order, gives the same elements. */
  lemma {:induction false} PickAll<T>(order: seq<nat>, s: seq<T>)
    requires Permutes(order, |s|)
    ensures multiset(Pick(order, s)) == multiset(s)
  {
    var n := |s|;
    if n == 0 {
      assert forall k :: 0 <= k < |order| ==> order[k] in order;
      assert order == [];
    } else {
      assert n - 1 in order;
      var k :| 0 <= k < |order| && order[k] == n - 1;
      PermutesRest(order, n, k);
      PickAll(order[..k] + order[k + 1..], s[..n - 1]);
      PickRest(order, s, k);
      Back(s);
      assert Pick(order, s)[k] in multiset(Pick(order, s));
      PutBack(multiset(Pick(order, s)), multiset(s), s[n - 1]);
    }
  }

  /** A complete run has exactly one result for each node, however it was scheduled and whether or not
      it was cancelled: what FanOut appended is what the slots hold. */
  lemma OneResultEach<T>(f: Fan<T>, nodes: seq<string>, limit: int)
    requires Inv(f, nodes, limit) && Complete(f)
    ensures |Collected(f, nodes, limit)| == |nodes|
    ensures multiset(Collected(f, nodes, limit)) == multiset(Slots(f, nodes, limit))
    ensures forall i :: 0 <= i < |nodes| ==> Slots(f, nodes, limit)[i].node == nodes[i]
  {
    var s := Slots(f, nodes, limit);
    PickAll(f.order, s);
    assert Collected(f, nodes, limit) == Pick(f.order, s);
    assert |multiset(Pick(f.order, s))| == |multiset(s)|;
  }

  /** What a caller gets: the entries sorted by node, from either way of collecting them. */
  ghost predicate IsReport<T>(out: seq<Entry<T>>, f: Fan<T>, nodes: seq<string>, limit: int)
    requires Inv(f, nodes, limit) && Complete(f)
  {
    && Sorted(ByNode(), out)
    && (multiset(out) == multiset(Collected(f, nodes, limit)) || multiset(out) == multiset(Slots(f, nodes, limit)))
  }

  /** The callback of this schedule answers each node as fn does. */
  ghost predicate Answers<T>(steps: seq<Step<T>>, nodes: seq<string>, fn: string -> Result<T, string>) {
    forall k :: 0 <= k < |steps| && steps[k].Record? && steps[k].i < |nodes| ==> steps[k].outcome == fn(nodes[steps[k].i])
  }

  lemma SlotAnswers<T>(f: Fan<T>, nodes: seq<string>, limit: int, selects: bool, step: Step<T>,
                       fn: string -> Result<T, string>, i: nat)
    requires Inv(f, nodes, limit) && Enabled(f, limit, selects, step) && i < |nodes|
    requires step.Record? ==> step.outcome == fn(nodes[step.i])
    requires f.slots[i].Some? && f.tasks[i] != Bailed ==> f.slots[i].value == Entry(nodes[i], fn(nodes[i]))
    ensures var f' := After(f, nodes, limit, selects, step);
      f'.slots[i].Some? && f'.tasks[i] != Bailed ==> f'.slots[i].value == Entry(nodes[i], fn(nodes[i]))
  {
  }

  lemma {:induction false} SlotsAnswer<T>(fs: seq<Fan<T>>, steps: seq<Step<T>>, nodes: seq<string>, limit: int, selects: bool,
                                          fn: string -> Result<T, string>, k: nat)
    requires Run(fs, steps, nodes, limit, selects) && k < |fs| && Answers(steps, nodes, fn)
    ensures |fs[k].slots| == |nodes| == |fs[k].tasks|
    ensures forall i :: 0 <= i < |nodes| && fs[k].slots[i].Some? && fs[k].tasks[i] != Bailed ==>
      fs[k].slots[i].value == Entry(nodes[i], fn(nodes[i]))
  {
    InvHolds(fs, steps, nodes, limit, selects, k);
    if k > 0 {
      InvHolds(fs, steps, nodes, limit, selects, k - 1);
      SlotsAnswer(fs, steps, nodes, limit, selects, fn, k - 1);
      SlotsAnswerStep(fs[k - 1], nodes, limit, selects, steps[k - 1], fn);
    }
  }

  lemma SlotsAnswerStep<T>(f: Fan<T>, nodes: seq<string>, limit: int, selects: bool, step: Step<T>,
                           fn: string -> Result<T, string>)
    requires Inv(f, nodes, limit) && Enabled(f, limit, selects, step)
    requires step.Record? ==> step.outcome == fn(nodes[step.i])
    requires forall i :: 0 <= i < |nodes| && f.slots[i].Some? && f.tasks[i] != Bailed ==>
      f.slots[i].value == Entry(nodes[i], fn(nodes[i]))
    ensures var f' := After(f, nodes, limit, selects, step);
      forall i :: 0 <= i < |nodes| && f'.slots[i].Some? && f'.tasks[i] != Bailed ==>
        f'.slots[i].value == Entry(nodes[i], fn(nodes[i]))
  {
    var f' := After(f, nodes, limit, selects, step);
    forall i | 0 <= i < |nodes| && f'.slots[i].Some? && f'.tasks[i] != Bailed
      ensures f'.slots[i].value == Entry(nodes[i], fn(nodes[i]))
    {
      SlotAnswers(f, nodes, limit, selects, step, fn, i);
    }
  }

  lemma {:induction false} NoBailWithoutCancel<T>(fs: seq<Fan<T>>, steps: seq<Step<T>>, nodes: seq<string>, limit: int,
                                                  selects: bool, k: nat)
    requires Run(fs, steps, nodes, limit, selects) && k < |fs|
    requires !selects || forall j :: 0 <= j < |steps| ==> !steps[j].Cancel?
    ensures selects ==> !fs[k].cancelled
    ensures forall i :: 0 <= i < |fs[k].tasks| ==> fs[k].tasks[i] != Bailed
  {
    if k > 0 {
      NoBailWithoutCancel(fs, steps, nodes, limit, selects, k - 1);
      assert fs[k] == After(fs[k - 1], nodes, limit, selects, steps[k - 1]);
      assert !steps[k - 1].Bail?;
    }
  }

  /** The answers of fn, node by node. */
  function Expected<T>(nodes: seq<string>, fn: string -> Result<T, string>): (r: seq<Entry<T>>)
    ensures |r| == |nodes| && forall i :: 0 <= i < |nodes| ==> r[i] == Entry(nodes[i], fn(nodes[i]))
  {
    seq(|nodes|, i requires 0 <= i < |nodes| => Entry(nodes[i], fn(nodes[i])))
  }

  lemma ReportOf<T(!new)>(fs: seq<Fan<T>>, steps: seq<Step<T>>, limit: int, selects: bool, out: seq<Entry<T>>,
                          nodes: seq<string>, fn: string -> Result<T, string>)
    requires Run(fs, steps, nodes, limit, selects) && Answers(steps, nodes, fn)
    requires !selects || forall j :: 0 <= j < |steps| ==> !steps[j].Cancel?
    requires Inv(fs[|steps|], nodes, limit) && Complete(fs[|steps|]) && IsReport(out, fs[|steps|], nodes, limit)
    ensures multiset(out) == multiset(Expected(nodes, fn))
  {
    var f := fs[|steps|];
    OneResultEach(f, nodes, limit);
    SlotsAnswer(fs, steps, nodes, limit, selects, fn, |steps|);
    NoBailWithoutCancel(fs, steps, nodes, limit, selects, |steps|);
    var s, e := Slots(f, nodes, limit), Expected(nodes, fn);
    forall i | 0 <= i < |nodes| ensures s[i] == e[i] { assert Over(f.tasks[i]); }
    assert s == e;
  }

  /** There is one sorted list of the answers: entries of one node are equal. */
  lemma OneReport<T(!new)>(out: seq<Entry<T>>, out': seq<Entry<T>>, nodes: seq<string>, fn: string -> Result<T, string>)
    requires Sorted(ByNode(), out) && Sorted(ByNode(), out')
    requires multiset(out) == multiset(Expected(nodes, fn)) == multiset(out')
    ensures out == out'
  {
    ByNodeIsOrder<T>();
    var e := Expected(nodes, fn);
    forall a, b | a in out && b in out && !ByNode()(a, b) && !ByNode()(b, a) ensures a == b {
      assert a in multiset(out) && b in multiset(out);
      assert a in e && b in e;
      Text.LessTotal(a.node, b.node);
    }
    SortedUnique(ByNode(), out, out');
  }

  /** A report goes by node, in lexicographic order. */
  lemma ReportOrder<T(!new)>(out: seq<Entry<T>>, i: nat, j: nat)
    requires Sorted(ByNode(), out) && i < j < |out|
    ensures out[i].node == out[j].node || Text.Precedes(out[i].node, out[j].node)
  {
    assert !ByNode()(out[j], out[i]);
    Text.LessTotal(out[i].node, out[j].node);
    Text.LessExactly(out[i].node, out[j].node);
  }

  /** The same list for all schedules. For a callback that answers as a function of the node, any two
      complete runs, under any limits, of a fan-out that ignores cancellation or is not cancelled,
      report the same list: the callback's answers, one for each node, sorted by node. Repeated
      nodes do no harm, because their entries are equal. */
  lemma ScheduleIndependent<T(!new)>(
      fs: seq<Fan<T>>, steps: seq<Step<T>>, limit: int, selects: bool, out: seq<Entry<T>>,
      fs': seq<Fan<T>>, steps': seq<Step<T>>, limit': int, selects': bool, out': seq<Entry<T>>,
      nodes: seq<string>, fn: string -> Result<T, string>)
    requires Run(fs, steps, nodes, limit, selects) && Run(fs', steps', nodes, limit', selects')
    requires !selects || forall j :: 0 <= j < |steps| ==> !steps[j].Cancel?
    requires !selects' || forall j :: 0 <= j < |steps'| ==> !steps'[j].Cancel?
    requires Answers(steps, nodes, fn) && Answers(steps', nodes, fn)
    requires Inv(fs[|steps|], nodes, limit) && Complete(fs[|steps|]) && IsReport(out, fs[|steps|], nodes, limit)
    requires Inv(fs'[|steps'|], nodes, limit') && Complete(fs'[|steps'|]) && IsReport(out', fs'[|steps'|], nodes, limit')
    ensures out == out' && multiset(out) == multiset(Expected(nodes, fn))
  {
    ReportOf(fs, steps, limit, selects, out, nodes, fn);
    ReportOf(fs', steps', limit', selects', out', nodes, fn);
    OneReport(out, out', nodes, fn);
  }
}
