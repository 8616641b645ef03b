/**
 The synchronous batch executor: a singly linked list of submitted operations, threaded through an
 array of slots, is walked, each operation is performed, and its slot is appended to the list of
 completed ones. What an operation yields may depend on the operations performed before it; that
 dependence is the parameter `perform`.
 */
module BatchQueue {

  const NONE := -1

  datatype Slot<Op, Res> = Submission(next: int, op: Op) | Completion(next: int, result: Res)

  /** The index after position `k`, if any. */
  function After(l: seq<int>, k: int): int {
    if 0 <= k + 1 < |l| then l[k + 1] else NONE
  }

  predicate Distinct(l: seq<int>) {
    forall i, j :: 0 <= i < j < |l| ==> l[i] != l[j]
  }

  /** From `head` one walks the submitted slots `l`. */
  ghost predicate Submitted<Op, Res>(st: seq<Slot<Op, Res>>, head: int, l: seq<int>) {
    head == After(l, -1)
    && forall k :: 0 <= k < |l| ==> 0 <= l[k] < |st| && st[l[k]].Submission? && st[l[k]].next == After(l, k)
  }

  /** From `head` one walks the completed slots `l`, the last of which is `tail`. */
  ghost predicate Completed<Op, Res>(st: seq<Slot<Op, Res>>, head: int, tail: int, l: seq<int>) {
    head == After(l, -1) && tail == (if l == [] then NONE else l[|l| - 1])
    && forall k :: 0 <= k < |l| ==> 0 <= l[k] < |st| && st[l[k]].Completion? && st[l[k]].next == After(l, k)
  }

  /** What the k-th operation of the list yields, performed after those before it. */
  function Outcome<Op(!new), Res(!new)>(ops: seq<Op>, k: nat, perform: (seq<Op>, Op) -> Res): Res
    requires k < |ops|
  {
    perform(ops[..k], ops[k])
  }

  ghost predicate AllSubmitted<Op, Res>(st: seq<Slot<Op, Res>>, l: seq<int>) {
    forall k :: 0 <= k < |l| ==> 0 <= l[k] < |st| && st[l[k]].Submission?
  }

  ghost function Ops<Op, Res>(st: seq<Slot<Op, Res>>, l: seq<int>): (r: seq<Op>)
    requires AllSubmitted(st, l)
    ensures |r| == |l| && forall k :: 0 <= k < |l| ==> r[k] == st[l[k]].op
  {
    seq(|l|, k requires 0 <= k < |l| => st[l[k]].op)
  }

  /** Both lists, in an array where no slot is on both or twice on one. */
  ghost predicate Lists<Op, Res>(st: seq<Slot<Op, Res>>, sHead: int, cHead: int, cTail: int, sub: seq<int>, comp: seq<int>) {
    Submitted(st, sHead, sub) && Completed(st, cHead, cTail, comp) && Distinct(comp + sub)
  }

  /** The first `k` operations of the list have their outcome, the others are still as submitted. */
  ghost predicate Performed<Op(!new), Res(!new)>(st0: seq<Slot<Op, Res>>, st: seq<Slot<Op, Res>>, sub: seq<int>, k: nat,
                                     perform: (seq<Op>, Op) -> Res)
    requires |st| == |st0| && AllSubmitted(st0, sub)
  {
    (forall j :: 0 <= j < k && j < |sub| ==> st[sub[j]].Completion? && st[sub[j]].result == Outcome(Ops(st0, sub), j, perform))
    && (forall j :: k <= j < |sub| ==> st[sub[j]] == st0[sub[j]])
  }

  /** Results completed before keep their value, and slots on neither list are untouched. */
  ghost predicate OthersKept<Op, Res>(st0: seq<Slot<Op, Res>>, st: seq<Slot<Op, Res>>, sub: seq<int>, comp: seq<int>)
    requires |st| == |st0|
  {
    (forall j :: 0 <= j < |comp| ==> 0 <= comp[j] < |st| && st[comp[j]].Completion? && st0[comp[j]].Completion? && st[comp[j]].result == st0[comp[j]].result)
    && (forall p :: 0 <= p < |st| && p !in comp && p !in sub ==> st[p] == st0[p])
  }

  /** After `k` operations: the walk is at the k-th, the completed list has grown by those done, each
      with its outcome, and every slot on neither list is as it was. */
  ghost predicate Progress<Op(!new), Res(!new)>(st0: seq<Slot<Op, Res>>, st: seq<Slot<Op, Res>>, index: int, cHead: int, cTail: int,
                                    sub: seq<int>, comp: seq<int>, k: nat, perform: (seq<Op>, Op) -> Res)
    requires k <= |sub| && AllSubmitted(st0, sub)
  {
    |st| == |st0| && index == After(sub, k - 1)
    && Completed(st, cHead, cTail, comp + sub[..k])
    && Performed(st0, st, sub, k, perform)
    && OthersKept(st0, st, sub, comp)
  }

  /** The array after slot `i` has been completed and appended behind `tail`. */
  function Appended<Op, Res>(st: seq<Slot<Op, Res>>, tail: int, i: int, result: Res): (r: seq<Slot<Op, Res>>)
    requires 0 <= i < |st| && (tail == NONE || (0 <= tail < |st| && tail != i && st[tail].Completion?))
    ensures |r| == |st| && r[i] == Completion(NONE, result)
    ensures forall p :: 0 <= p < |st| && p != i && p != tail ==> r[p] == st[p]
    ensures tail != NONE ==> r[tail] == Completion(i, st[tail].result)
  {
    var st1 := st[i := Completion(NONE, result)];
    if tail == NONE then st1 else st1[tail := Completion(i, st[tail].result)]
  }

  lemma {:induction false} AppendCompleted<Op, Res>(st: seq<Slot<Op, Res>>, head: int, tail: int, l: seq<int>, i: int, result: Res)
    requires Completed(st, head, tail, l) && Distinct(l) && 0 <= i < |st| && i !in l
    ensures tail == NONE || (0 <= tail < |st| && tail != i && st[tail].Completion? && tail in l)
    ensures Completed(Appended(st, tail, i, result), if tail == NONE then i else head, i, l + [i])
  {
    if l != [] { assert l[|l| - 1] in l; }
    var r, l' := Appended(st, tail, i, result), l + [i];
    forall k | 0 <= k < |l'| ensures 0 <= l'[k] < |r| && r[l'[k]].Completion? && r[l'[k]].next == After(l', k) {
      if k < |l| {
        assert l'[k] == l[k] && l[k] in l;
        assert k < |l| - 1 ==> l[k] != l[|l| - 1];
      }
    }
  }

  lemma {:induction false} DistinctFacts(comp: seq<int>, sub: seq<int>, k: nat)
    requires Distinct(comp + sub) && k < |sub|
    ensures Distinct(comp + sub[..k]) && sub[k] !in comp + sub[..k] && comp + sub[..k] + [sub[k]] == comp + sub[..k + 1]
    ensures forall j :: 0 <= j < |sub| && j != k ==> sub[j] != sub[k]
    ensures forall j :: k < j < |sub| ==> sub[j] !in comp + sub[..k]
    ensures forall j :: 0 <= j < |comp| ==> comp[j] != sub[k]
  {
    var all := comp + sub;
    assert comp + sub[..k] == all[..|comp| + k];
    assert all[|comp| + k] == sub[k];
    assert forall j :: 0 <= j < |sub| ==> all[|comp| + j] == sub[j];
    assert forall j :: 0 <= j < |comp| ==> all[j] == comp[j];
    forall j | k < j < |sub| ensures sub[j] !in all[..|comp| + k] { assert all[|comp| + j] == sub[j]; }
  }

  lemma {:induction false} ProgressStep<Op(!new), Res(!new)>(
    st0: seq<Slot<Op, Res>>, st: seq<Slot<Op, Res>>, index: int, cHead: int, cTail: int,
    sub: seq<int>, comp: seq<int>, k: nat, perform: (seq<Op>, Op) -> Res)
    requires Submitted(st0, After(sub, -1), sub) && Distinct(comp + sub) && k < |sub|
    requires Progress(st0, st, index, cHead, cTail, sub, comp, k, perform)
    ensures index == sub[k] && 0 <= index < |st| && st[index] == st0[index] && st0[index].Submission?
    ensures st[index].next == After(sub, k) && st[index].op == Ops(st0, sub)[k]
    ensures cTail == NONE || (0 <= cTail < |st| && cTail != index && st[cTail].Completion?)
    ensures Progress(st0, Appended(st, cTail, index, Outcome(Ops(st0, sub), k, perform)), st[index].next,
                     if cTail == NONE then index else cHead, index, sub, comp, k + 1, perform)
  {
    hide Completed, Distinct, Outcome, Appended, OthersKept;
    DistinctFacts(comp, sub, k);
    var l := comp + sub[..k];
    var result := Outcome(Ops(st0, sub), k, perform);
    AppendCompleted(st, cHead, cTail, l, index, result);
    hide Performed;
    AppendPerforms(st0, st, cTail, sub, comp, k, perform);
    AppendKeeps(st0, st, cTail, index, result, sub, comp, k);
  }

  lemma {:induction false} AppendPerforms<Op(!new), Res(!new)>(
    st0: seq<Slot<Op, Res>>, st: seq<Slot<Op, Res>>, cTail: int, sub: seq<int>, comp: seq<int>, k: nat,
    perform: (seq<Op>, Op) -> Res)
    requires |st| == |st0| && AllSubmitted(st0, sub)
    requires k < |sub| && Distinct(comp + sub) && Performed(st0, st, sub, k, perform)
    requires cTail == NONE || (0 <= cTail < |st| && cTail in comp + sub[..k] && st[cTail].Completion? && cTail != sub[k])
    ensures Performed(st0, Appended(st, cTail, sub[k], Outcome(Ops(st0, sub), k, perform)), sub, k + 1, perform)
  {
    hide Distinct, Outcome, Appended;
    DistinctFacts(comp, sub, k);
    var r := Appended(st, cTail, sub[k], Outcome(Ops(st0, sub), k, perform));
    forall j | k + 1 <= j < |sub| ensures r[sub[j]] == st0[sub[j]] {
      assert sub[j] !in comp + sub[..k];
    }
  }

  lemma {:induction false} AppendKeeps<Op, Res>(
    st0: seq<Slot<Op, Res>>, st: seq<Slot<Op, Res>>, cTail: int, index: int, result: Res, sub: seq<int>, comp: seq<int>, k: nat)
    requires |st| == |st0| && OthersKept(st0, st, sub, comp) && k < |sub| && 0 <= index < |st| && index == sub[k] && index !in comp
    requires cTail == NONE || (0 <= cTail < |st| && cTail in comp + sub[..k] && st[cTail].Completion? && cTail != index)
    ensures OthersKept(st0, Appended(st, cTail, index, result), sub, comp)
  {
    hide Appended;
    var r := Appended(st, cTail, index, result);
    assert forall p :: p in comp + sub[..k] ==> p in comp || p in sub;
    forall j | 0 <= j < |comp| ensures r[comp[j]].Completion? && r[comp[j]].result == st0[comp[j]].result {
      assert comp[j] in comp;
    }
  }

  class Batch<Op(!new), Res(!new)> {
    const storage: array<Slot<Op, Res>>
    var submittedHead: int
    var completedHead: int
    var completedTail: int

    constructor (slots: array<Slot<Op, Res>>)
      ensures storage == slots && submittedHead == NONE && completedHead == NONE && completedTail == NONE
    {
      storage, submittedHead, completedHead, completedTail := slots, NONE, NONE, NONE;
    }

    /** Complete slot `index` and append it to the completed list. */
    method Append(index: int, result: Res)
      requires 0 <= index < storage.Length
      requires completedTail == NONE || (0 <= completedTail < storage.Length && completedTail != index && storage[completedTail].Completion?)
      modifies `completedHead, `completedTail, storage
      ensures storage[..] == Appended(old(storage[..]), old(completedTail), index, result)
      ensures completedHead == (if old(completedTail) == NONE then index else old(completedHead)) && completedTail == index
    {
      storage[index] := Completion(NONE, result);
      if completedTail == NONE {
        completedHead := index;
      } else {
        storage[completedTail] := Completion(index, storage[completedTail].result);
      }
      completedTail := index;
    }

    /** Perform the operation at `index`, the k-th of the list, after those in `log`. */
    method Turn(index: int, log: seq<Op>, perform: (seq<Op>, Op) -> Res,
                ghost st0: seq<Slot<Op, Res>>, ghost sub: seq<int>, ghost comp: seq<int>, ghost k: nat) returns (next: int, op: Op)
      requires Submitted(st0, After(sub, -1), sub) && Distinct(comp + sub) && k < |sub| && AllSubmitted(st0, sub)
      requires Progress(st0, storage[..], index, completedHead, completedTail, sub, comp, k, perform)
      requires log == Ops(st0, sub)[..k]
      modifies `completedHead, `completedTail, storage
      ensures next == After(sub, k) && op == Ops(st0, sub)[k]
      ensures Progress(st0, storage[..], next, completedHead, completedTail, sub, comp, k + 1, perform)
    {
      hide Progress, Completed, Distinct, Appended, Submitted, AllSubmitted;
      ghost var st := storage[..];
      ProgressStep(st0, st, index, completedHead, completedTail, sub, comp, k, perform);
      next, op := storage[index].next, storage[index].op;
      var result := perform(log, op);
      Append(index, result);
    }

    /** Perform every submitted operation once, in order, and move it to the completed list. */
    method AwaitAsync(ghost sub: seq<int>, ghost comp: seq<int>, perform: (seq<Op>, Op) -> Res) returns (log: seq<Op>)
      requires Lists(storage[..], submittedHead, completedHead, completedTail, sub, comp)
      modifies this, storage
      ensures submittedHead == NONE
      ensures log == Ops(old(storage[..]), sub)
      ensures Progress(old(storage[..]), storage[..], NONE, completedHead, completedTail, sub, comp, |sub|, perform)
    {
      hide Progress, Completed, Distinct, Submitted, AllSubmitted, Lists;
      var index := submittedHead;
      submittedHead := NONE;
      log := [];
      ghost var k := 0;
      ghost var st0 := storage[..];
      ProgressStart(st0, index, completedHead, completedTail, sub, comp, perform);
      while index != NONE
        invariant 0 <= k <= |sub| && Progress(st0, storage[..], index, completedHead, completedTail, sub, comp, k, perform)
        invariant index == After(sub, k - 1)
        invariant log == Ops(st0, sub)[..k] && submittedHead == NONE
        decreases |sub| - k
      {
        var next, op := Turn(index, log, perform, st0, sub, comp, k);
        log := log + [op];
        index := next;
        k := k + 1;
      }
      NotNone(st0, sub, k);
    }
  }

  /** The walk ends only at the end of the list. */
  lemma {:induction false} NotNone<Op, Res>(st: seq<Slot<Op, Res>>, sub: seq<int>, k: nat)
    requires AllSubmitted(st, sub) && k <= |sub| && After(sub, k - 1) == NONE
    ensures k == |sub|
  {
  }

  lemma {:induction false} ProgressStart<Op(!new), Res(!new)>(
    st: seq<Slot<Op, Res>>, sHead: int, cHead: int, cTail: int, sub: seq<int>, comp: seq<int>, perform: (seq<Op>, Op) -> Res)
    requires Lists(st, sHead, cHead, cTail, sub, comp)
    ensures sHead == After(sub, -1) && AllSubmitted(st, sub) && Submitted(st, After(sub, -1), sub)
    ensures Distinct(comp + sub) && Progress(st, st, sHead, cHead, cTail, sub, comp, 0, perform)
  {
    assert comp + sub[..0] == comp;
  }
}
