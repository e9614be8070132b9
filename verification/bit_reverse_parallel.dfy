/**
  The parallel bit reversals: every index is a task of some thread, and a task that swaps does
  two loads and two stores. The loads and stores of different tasks may interleave in any way.
 */
module BitReverseParallel {
  import opened ModArith
  import opened BitReverse
  import opened BitReverseInPlace

  /** Where a task stands in its swap, with the values it has loaded. */
  datatype Pc<T> = Idle | LoadedOne(x: T) | LoadedBoth(x: T, y: T) | StoredOne(x: T) | Finished

  datatype State<T> = State(cells: seq<T>, pcs: seq<Pc<T>>)

  ghost predicate Shaped<T>(k: nat, s: State<T>) { |s.cells| == |s.pcs| == Exp2(k) }

  function Initial<T>(k: nat, was: seq<T>): State<T>
    requires |was| == Exp2(k)
  {
    State(was, seq(|was|, i => Idle))
  }

  /** One memory access of task `i`. */
  function Step<T>(k: nat, low: bool, s: State<T>, i: nat): (t: State<T>)
    requires |s.cells| == |s.pcs| == Exp2(k) && i < Exp2(k)
    ensures |t.cells| == |t.pcs| == Exp2(k)
  {
    var r := Rev(k, i);
    if !Leads(k, low, i) then s.(pcs := s.pcs[i := Finished])
    else
      match s.pcs[i]
      case Idle => s.(pcs := s.pcs[i := LoadedOne(s.cells[i])])
      case LoadedOne(x) => s.(pcs := s.pcs[i := LoadedBoth(x, s.cells[r])])
      case LoadedBoth(x, y) => State(s.cells[i := y], s.pcs[i := StoredOne(x)])
      case StoredOne(x) => State(s.cells[r := x], s.pcs[i := Finished])
      case Finished => s
  }

  /** A schedule names the task that makes the next access. */
  ghost predicate Schedule(k: nat, order: seq<nat>) { forall n :: 0 <= n < |order| ==> order[n] < Exp2(k) }

  function Run<T>(k: nat, low: bool, s: State<T>, order: seq<nat>): (t: State<T>)
    requires |s.cells| == |s.pcs| == Exp2(k) && forall n :: 0 <= n < |order| ==> order[n] < Exp2(k)
    ensures |t.cells| == |t.pcs| == Exp2(k)
  {
    if order == [] then s else Step(k, low, Run(k, low, s, order[..|order| - 1]), order[|order| - 1])
  }

  // ---------------------------------------------------------------- invariant

  /** The cells of one pair, as far as its leading task has come. */
  ghost predicate PairState<T>(k: nat, was: seq<T>, s: State<T>, i: nat)
    requires Shaped(k, s) && |was| == Exp2(k) && i < Exp2(k)
  {
    var r := Rev(k, i);
    match s.pcs[i]
    case Idle => s.cells[i] == was[i] && s.cells[r] == was[r]
    case LoadedOne(x) => s.cells[i] == was[i] == x && s.cells[r] == was[r]
    case LoadedBoth(x, y) => s.cells[i] == was[i] == x && s.cells[r] == was[r] == y
    case StoredOne(x) => s.cells[i] == was[r] && s.cells[r] == was[r] && x == was[i]
    case Finished => s.cells[i] == was[r] && s.cells[r] == was[i]
  }

  ghost predicate Inv<T>(k: nat, low: bool, was: seq<T>, s: State<T>) {
    && Shaped(k, s) && |was| == Exp2(k)
    && (forall i :: 0 <= i < Exp2(k) && Leads(k, low, i) ==> PairState(k, was, s, i))
    && (forall i :: 0 <= i < Exp2(k) && Rev(k, i) == i ==> s.cells[i] == was[i])
  }

  /** Two tasks that swap touch four different cells. */
  lemma DisjointFootprints(k: nat, low: bool, i: nat, j: nat)
    requires i < Exp2(k) && j < Exp2(k) && i != j && Leads(k, low, i)
    ensures Rev(k, i) != i
    ensures Leads(k, low, j) ==> j != Rev(k, i) && Rev(k, j) != i && Rev(k, j) != Rev(k, i)
    ensures Rev(k, j) == j ==> j != Rev(k, i)
  {
    RevInvolution(k, i);
    RevInvolution(k, j);
  }

  lemma StepKeeps<T>(k: nat, low: bool, was: seq<T>, s: State<T>, i: nat)
    requires Inv(k, low, was, s) && i < Exp2(k)
    ensures Inv(k, low, was, Step(k, low, s, i))
  {
    var t := Step(k, low, s, i);
    if Leads(k, low, i) {
      assert PairState(k, was, s, i);
      assert Rev(k, i) != i;
      forall j | 0 <= j < Exp2(k) && j != i
        ensures Leads(k, low, j) ==> PairState(k, was, t, j)
        ensures Rev(k, j) == j ==> t.cells[j] == was[j]
      {
        DisjointFootprints(k, low, i, j);
        assert Leads(k, low, j) ==> PairState(k, was, s, j);
      }
      assert PairState(k, was, t, i);
    } else {
      forall j | 0 <= j < Exp2(k) && Leads(k, low, j)
        ensures PairState(k, was, t, j)
      {
        assert PairState(k, was, s, j);
      }
    }
  }

  lemma {:induction false} RunKeeps<T>(k: nat, low: bool, was: seq<T>, s: State<T>, order: seq<nat>)
    requires Inv(k, low, was, s) && Schedule(k, order)
    ensures Inv(k, low, was, Run(k, low, s, order))
  {
    hide PairState, Step;
    if order != [] {
      var n := |order| - 1;
      RunKeeps(k, low, was, s, order[..n]);
      StepKeeps(k, low, was, Run(k, low, s, order[..n]), order[n]);
    }
  }

  lemma InitialInv<T>(k: nat, low: bool, was: seq<T>)
    requires |was| == Exp2(k)
    ensures Inv(k, low, was, Initial(k, was))
  {
  }

  /** Once all tasks are finished, the cells hold the reversed order. */
  lemma FinishedReversed<T>(k: nat, low: bool, was: seq<T>, s: State<T>)
    requires Inv(k, low, was, s) && forall i :: 0 <= i < Exp2(k) ==> s.pcs[i] == Finished
    ensures s.cells == Reversed(k, was)
  {
    forall i | 0 <= i < Exp2(k)
      ensures s.cells[i] == was[Rev(k, i)]
    {
      RevInvolution(k, i);
      var j := Rev(k, i);
      assert Leads(k, low, i) ==> PairState(k, was, s, i);
      assert Leads(k, low, j) ==> PairState(k, was, s, j);
    }
  }

  // ---------------------------------------------------------------- progress

  function Turns(order: seq<nat>, i: nat): nat {
    if order == [] then 0
    else Turns(order[..|order| - 1], i) + (if order[|order| - 1] == i then 1 else 0)
  }

  function Rank<T>(pc: Pc<T>): nat {
    match pc
    case Idle => 0
    case LoadedOne(_) => 1
    case LoadedBoth(_, _) => 2
    case StoredOne(_) => 3
    case Finished => 4
  }

  lemma StepRank<T>(k: nat, low: bool, s: State<T>, i: nat, j: nat)
    requires Shaped(k, s) && i < Exp2(k) && j < Exp2(k)
    ensures Rank(Step(k, low, s, j).pcs[i]) >= if i == j && Rank(s.pcs[i]) < 4 then Rank(s.pcs[i]) + 1 else Rank(s.pcs[i])
  {
  }

  lemma {:induction false} RunRank<T>(k: nat, low: bool, s: State<T>, order: seq<nat>, i: nat)
    requires Shaped(k, s) && Schedule(k, order) && i < Exp2(k)
    ensures Rank(Run(k, low, s, order).pcs[i]) >= if Turns(order, i) < 4 then Turns(order, i) else 4
  {
    hide Step, Rank;
    if order != [] {
      var n := |order| - 1;
      RunRank(k, low, s, order[..n], i);
      StepRank(k, low, Run(k, low, s, order[..n]), i, order[n]);
    } else {
      assert Turns(order, i) == 0;
    }
  }

  /**
    Every schedule that gives each task its four accesses ends with the sequence the sequential
    algorithms leave, whichever side of a pair does the swap.
   */
  lemma EverySchedule<T>(k: nat, low: bool, was: seq<T>, order: seq<nat>)
    requires |was| == Exp2(k) && Schedule(k, order) && forall i :: 0 <= i < Exp2(k) ==> Turns(order, i) >= 4
    ensures Run(k, low, Initial(k, was), order).cells == Reversed(k, was)
  {
    hide Step, PairState, Inv;
    InitialInv(k, low, was);
    RunKeeps(k, low, was, Initial(k, was), order);
    var s := Run(k, low, Initial(k, was), order);
    forall i | 0 <= i < Exp2(k)
      ensures s.pcs[i] == Finished
    {
      RunRank(k, low, Initial(k, was), order, i);
    }
    FinishedReversed(k, low, was, s);
  }
}
