/**
 * The growable array of lib/core/array.h: doubling with a floor of sixteen, and what it costs to
 * copy the elements over.
 */
module DynamicArray {

  const DEFAULT_INIT_CAP: nat := 16

  function Max(a: nat, b: nat): nat { if a > b then a else b }

  /**
   * `copied` counts the element slots that reallocations have copied; a reallocation copies all of the old
   * capacity.
   */
  datatype State<T> = State(cap: nat, items: seq<T>, copied: nat)

  datatype Op<T> = Push(item: T) | Pop

  function Step<T>(s: State<T>, op: Op<T>): State<T>
    requires op.Pop? ==> s.items != []
  {
    match op
    case Push(x) =>
      if s.cap == |s.items| then State(Max(s.cap * 2, DEFAULT_INIT_CAP), s.items + [x], s.copied + s.cap)
      else s.(items := s.items + [x])
    case Pop => s.(items := s.items[..|s.items| - 1])
  }

  class DArr<T(0)> {
    var data: array<T>
    var len: nat
    ghost var copied: nat

    ghost predicate Valid()
      reads this
    {
      len <= data.Length
    }

    ghost function Model(): State<T>
      requires Valid()
      reads this, data
    {
      State(data.Length, data[..len], copied)
    }

    constructor (cap: nat)
      ensures Valid() && fresh(data) && Model() == State(cap, [], 0)
    {
      data := new T[cap];
      len, copied := 0, 0;
    }

    method PushItem(item: T)
      requires Valid()
      modifies this, data
      ensures Valid() && (data == old(data) || fresh(data))
      ensures Model() == Step(old(Model()), Push(item))
    {
      ghost var items := data[..len];
      if data.Length - len == 0 {
        var newCap := if data.Length * 2 > DEFAULT_INIT_CAP then data.Length * 2 else DEFAULT_INIT_CAP;
        var newData := new T[newCap];
        forall i | 0 <= i < data.Length { newData[i] := data[i]; }
        copied := copied + data.Length;
        data := newData;
      }
      assert data[..len] == items;
      data[len] := item;
      len := len + 1;
      assert data[..len] == items + [item];
    }

    method PopItem()
      requires Valid() && len > 0
      modifies this
      ensures Valid() && data == old(data)
      ensures Model() == Step(old(Model()), Pop)
    {
      len := len - 1;
      assert data[..len] == old(data[..len])[..len];
    }
  }

  // ---------------------------------------------------------------- runs

  /** No pop of the run finds the array empty. */
  predicate Runnable<T>(ops: seq<Op<T>>) {
    ops == [] || (Runnable(ops[..|ops| - 1]) && (ops[|ops| - 1].Pop? ==> Contents(ops[..|ops| - 1]) != []))
  }

  /** The list that the pushes and pops of a run stand for. */
  function Contents<T>(ops: seq<Op<T>>): seq<T> {
    if ops == [] then []
    else
      var before := Contents(ops[..|ops| - 1]);
      match ops[|ops| - 1]
      case Push(x) => before + [x]
      case Pop => if before == [] then [] else before[..|before| - 1]
  }

  function Pushes<T>(ops: seq<Op<T>>): nat {
    if ops == [] then 0 else Pushes(ops[..|ops| - 1]) + if ops[|ops| - 1].Push? then 1 else 0
  }

  function Run<T>(cap: nat, ops: seq<Op<T>>): (s: State<T>)
    requires Runnable(ops)
    ensures s.items == Contents(ops)
  {
    if ops == [] then State(cap, [], 0) else Step(Run(cap, ops[..|ops| - 1]), ops[|ops| - 1])
  }

  /**
   * Never reallocated; or the last capacity pays for all copies, the last growth having found the
   * array full.
   */
  ghost predicate Paid<T>(cap: nat, s: State<T>, pushes: nat) {
    && |s.items| <= s.cap && |s.items| <= pushes
    && ((s.cap == cap && s.copied == 0) ||
        (s.cap >= DEFAULT_INIT_CAP && pushes >= 1 && s.copied + cap <= s.cap && s.copied <= 2 * (pushes - 1)))
  }

  lemma {:induction false} RunPaid<T>(cap: nat, ops: seq<Op<T>>)
    requires Runnable(ops)
    ensures Paid(cap, Run(cap, ops), Pushes(ops))
  {
    if ops != [] { RunPaid(cap, ops[..|ops| - 1]); }
  }

  /**
   * For every run of pushes and pops and every initial capacity the array holds the list of the run, and
   * fewer than two slots per push were copied.
   */
  lemma AmortizedPush<T>(cap: nat, ops: seq<Op<T>>)
    requires Runnable(ops)
    ensures Run(cap, ops).items == Contents(ops)
    ensures Pushes(ops) >= 1 ==> Run(cap, ops).copied < 2 * Pushes(ops)
    ensures Pushes(ops) == 0 ==> Run(cap, ops).copied == 0
  {
    RunPaid(cap, ops);
  }

  // ---------------------------------------------------------------- how large it gets

  /** The most items the array holds at any time of the run. */
  function Peak<T>(ops: seq<Op<T>>): nat {
    if ops == [] then 0
    else if |Contents(ops)| > Peak(ops[..|ops| - 1]) then |Contents(ops)| else Peak(ops[..|ops| - 1])
  }

  /**
   * The capacity changes exactly when the array comes to hold more items than it had room for at first. It
   * is then at least sixteen, and at most sixteen or less than twice the most items held.
   */
  lemma {:induction false} CapacityBound<T>(cap: nat, ops: seq<Op<T>>)
    requires Runnable(ops)
    ensures var c, peak := Run(cap, ops).cap, Peak(ops);
            && |Contents(ops)| <= peak <= c && peak <= Pushes(ops)
            && (c == cap <==> peak <= cap)
            && (peak > cap ==> 16 <= c && (c == 16 || c <= 2 * (peak - 1)) && 2 * cap <= c)
  {
    if ops != [] { CapacityBound(cap, ops[..|ops| - 1]); }
  }
}
