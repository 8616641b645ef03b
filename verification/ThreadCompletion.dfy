/**
 Who frees a thread's completion record: the worker, its joiner or its detacher.

 A state machine over any number of spawned threads. A record lives at a heap address from `spawn`
 until somebody destroys it; the address may then be handed out again for another thread. Each
 thread has a worker (the spawned thread) and an owner (whoever holds the handle), and each handle
 is joined or detached at most once. `futexWake` takes an address and looks at no memory. Any other
 use of a record after its destruction, and any switch branch marked unreachable, sets `fault`.
 */
module ThreadCompletion {

  datatype Word = Running | Completed | Detached

  datatype WorkerPc =
    | InFn         // running the thread function
    | SwapDone     // function returned, about to swap in `completed`
    | Wake         // saw `running`: about to wake the joiner
    | WorkerFree   // saw `detached`: about to destroy the record
    | Exited

  datatype OwnerPc =
    | Held         // handle not yet joined or detached
    | JoinLoad     // join: about to load the state in the wait loop
    | JoinWait     // join: about to call futex_wait(running)
    | JoinAsleep   // join: asleep in the kernel
    | JoinCas      // join: about to compare-exchange completed -> detached
    | JoinFree     // join: claimed the record, about to destroy it
    | Joined       // join has returned
    | DetachSwap   // detach: about to swap in `detached`
    | DetachFree   // detach: saw `completed`, about to destroy the record
    | Released     // detach has returned

  datatype Thread = Thread(addr: nat, worker: WorkerPc, owner: OwnerPc, frees: nat)

  datatype State = State(mem: map<nat, Word>, threads: seq<Thread>, fault: bool)

  datatype Event =
    | Spawn(addr: nat)
    | FnReturns(i: nat)
    | WorkerRuns(i: nat)
    | Join(i: nat)
    | Detach(i: nat)
    | OwnerRuns(i: nat)
    | Spurious(i: nat)

  predicate Enabled(s: State, e: Event) {
    match e
    case Spawn(a) => a !in s.mem
    case FnReturns(i) => i < |s.threads| && s.threads[i].worker == InFn
    case WorkerRuns(i) => i < |s.threads| && s.threads[i].worker !in {InFn, Exited}
    case Join(i) => i < |s.threads| && s.threads[i].owner == Held
    case Detach(i) => i < |s.threads| && s.threads[i].owner == Held
    case OwnerRuns(i) => i < |s.threads| && s.threads[i].owner !in {Held, JoinAsleep, Joined, Released}
    case Spurious(i) => i < |s.threads| && s.threads[i].owner == JoinAsleep
  }

  /** The record of thread `i` may be read and written. */
  predicate Live(s: State, i: nat)
    requires i < |s.threads|
  {
    s.threads[i].frees == 0 && s.threads[i].addr in s.mem
  }

  function Fault(s: State): State {
    s.(fault := true)
  }

  /** Wake every joiner asleep on `addr`, whichever thread's record is there now. */
  function ResumeAt(ts: seq<Thread>, addr: nat): (r: seq<Thread>)
    ensures |r| == |ts|
    ensures forall j :: 0 <= j < |ts| ==>
              r[j] == if ts[j].owner == JoinAsleep && ts[j].addr == addr then ts[j].(owner := JoinLoad) else ts[j]
  {
    seq(|ts|, j requires 0 <= j < |ts| =>
      if ts[j].owner == JoinAsleep && ts[j].addr == addr then ts[j].(owner := JoinLoad) else ts[j])
  }

  function WorkerStep(s: State, i: nat): State
    requires Enabled(s, WorkerRuns(i))
  {
    var th := s.threads[i];
    match th.worker
    case SwapDone =>
      if !Live(s, i) || s.mem[th.addr] == Completed then Fault(s)
      else State(s.mem[th.addr := Completed],
                 s.threads[i := th.(worker := if s.mem[th.addr] == Running then Wake else WorkerFree)], s.fault)
    case Wake => s.(threads := ResumeAt(s.threads, th.addr)[i := ResumeAt(s.threads, th.addr)[i].(worker := Exited)])
    case WorkerFree =>
      if !Live(s, i) then Fault(s)
      else State(s.mem - {th.addr}, s.threads[i := th.(worker := Exited, frees := th.frees + 1)], s.fault)
    case _ => s
  }

  function OwnerStep(s: State, i: nat): State
    requires Enabled(s, OwnerRuns(i))
  {
    var th := s.threads[i];
    if !Live(s, i) then Fault(s) else
    match th.owner
    case JoinLoad => s.(threads := s.threads[i := th.(owner := if s.mem[th.addr] == Running then JoinWait else JoinCas)])
    case JoinWait => s.(threads := s.threads[i := th.(owner := if s.mem[th.addr] == Running then JoinAsleep else JoinLoad)])
    case JoinCas =>
      if s.mem[th.addr] == Completed
      then State(s.mem[th.addr := Detached], s.threads[i := th.(owner := JoinFree)], s.fault)
      else s.(threads := s.threads[i := th.(owner := Joined)])
    case DetachSwap =>
      if s.mem[th.addr] == Detached then Fault(s)
      else State(s.mem[th.addr := Detached],
                 s.threads[i := th.(owner := if s.mem[th.addr] == Running then Released else DetachFree)], s.fault)
    case JoinFree => State(s.mem - {th.addr}, s.threads[i := th.(owner := Joined, frees := th.frees + 1)], s.fault)
    case DetachFree => State(s.mem - {th.addr}, s.threads[i := th.(owner := Released, frees := th.frees + 1)], s.fault)
    case _ => s
  }

  function Apply(s: State, e: Event): State
    requires Enabled(s, e)
  {
    match e
    case Spawn(a) => State(s.mem[a := Running], s.threads + [Thread(a, InFn, Held, 0)], s.fault)
    case FnReturns(i) => s.(threads := s.threads[i := s.threads[i].(worker := SwapDone)])
    case WorkerRuns(i) => WorkerStep(s, i)
    case Join(i) => s.(threads := s.threads[i := s.threads[i].(owner := JoinLoad)])
    case Detach(i) => s.(threads := s.threads[i := s.threads[i].(owner := DetachSwap)])
    case OwnerRuns(i) => OwnerStep(s, i)
    case Spurious(i) => s.(threads := s.threads[i := s.threads[i].(owner := JoinLoad)])
  }

  predicate IsRun(s: State, es: seq<Event>)
    decreases es
  {
    es == [] || (Enabled(s, es[0]) && IsRun(Apply(s, es[0]), es[1..]))
  }

  function After(s: State, es: seq<Event>): State
    requires IsRun(s, es)
    decreases es
  {
    if es == [] then s else After(Apply(s, es[0]), es[1..])
  }

  const INIT := State(map[], [], false)

  // ----- the invariant -----

  /** The joint positions of worker and owner, with the word the record then holds. */
  predicate Agrees(th: Thread, word: Word) {
    match th.worker
    case InFn => th.frees == 0 && (if th.owner == Released then word == Detached else Early(th.owner) && word == Running)
    case SwapDone => th.frees == 0 && (if th.owner == Released then word == Detached else Early(th.owner) && word == Running)
    case WorkerFree => th.frees == 0 && th.owner == Released && word == Completed
    case Wake => Late(th, word)
    case Exited => (th.owner == Released && th.frees == 1) || (th.owner != JoinAsleep && Late(th, word))
  }

  predicate Early(o: OwnerPc) {
    o in {Held, JoinLoad, JoinWait, JoinAsleep, DetachSwap}
  }

  predicate Late(th: Thread, word: Word) {
    if th.owner in {Joined, Released} then th.frees == 1
    else th.frees == 0 && word == (if th.owner in {JoinFree, DetachFree} then Detached else Completed)
  }

  function WordOf(s: State, th: Thread): Word {
    if th.frees == 0 && th.addr in s.mem then s.mem[th.addr] else Running
  }

  ghost predicate Inv(s: State) {
    !s.fault
    && (forall i :: 0 <= i < |s.threads| && s.threads[i].frees == 0 ==> s.threads[i].addr in s.mem)
    && (forall i, j :: 0 <= i < j < |s.threads| && s.threads[i].frees == 0 && s.threads[j].frees == 0
          ==> s.threads[i].addr != s.threads[j].addr)
    && (forall i :: 0 <= i < |s.threads| ==> Agrees(s.threads[i], WordOf(s, s.threads[i])))
  }

  /** A step of thread `i` that touches no record but its own, and that one only while it is live. */
  lemma UpdateInv(s: State, i: nat, th: Thread, mem: map<nat, Word>)
    requires Inv(s) && i < |s.threads| && th.addr == s.threads[i].addr
    requires s.threads[i].frees == 0 || (th.frees != 0 && mem == s.mem)
    requires forall a :: a != th.addr ==> (a in mem <==> a in s.mem)
    requires forall a :: a != th.addr && a in mem ==> mem[a] == s.mem[a]
    requires th.frees == 0 ==> th.addr in mem
    requires Agrees(th, if th.frees == 0 then mem[th.addr] else Running)
    ensures Inv(State(mem, s.threads[i := th], false))
  {
    var s' := State(mem, s.threads[i := th], false);
    forall j | 0 <= j < |s.threads| && j != i ensures WordOf(s', s'.threads[j]) == WordOf(s, s.threads[j]) {
      assert s'.threads[j] == s.threads[j];
    }
  }

  lemma WorkerInv(s: State, i: nat)
    requires Inv(s) && Enabled(s, WorkerRuns(i))
    ensures Inv(WorkerStep(s, i))
  {
    var th, s' := s.threads[i], WorkerStep(s, i);
    assert Agrees(th, WordOf(s, th));
    if th.worker == Wake {
      WakeInv(s, i);
    } else {
      UpdateInv(s, i, s'.threads[i], s'.mem);
    }
  }

  lemma WakeInv(s: State, i: nat)
    requires Inv(s) && i < |s.threads| && s.threads[i].worker == Wake
    ensures Inv(WorkerStep(s, i))
  {
    var s' := WorkerStep(s, i);
    forall j | 0 <= j < |s.threads| ensures Agrees(s'.threads[j], WordOf(s', s'.threads[j])) {
      assert Agrees(s.threads[j], WordOf(s, s.threads[j])) && WordOf(s', s'.threads[j]) == WordOf(s, s.threads[j]);
    }
  }

  lemma OwnerInv(s: State, i: nat)
    requires Inv(s) && Enabled(s, OwnerRuns(i))
    ensures Inv(OwnerStep(s, i))
  {
    var th, s' := s.threads[i], OwnerStep(s, i);
    assert Agrees(th, WordOf(s, th));
    UpdateInv(s, i, s'.threads[i], s'.mem);
  }

  lemma SpawnInv(s: State, a: nat)
    requires Inv(s) && a !in s.mem
    ensures Inv(Apply(s, Spawn(a)))
  {
    var s' := Apply(s, Spawn(a));
    forall j | 0 <= j < |s.threads| ensures WordOf(s', s'.threads[j]) == WordOf(s, s.threads[j]) {
      assert s'.threads[j] == s.threads[j];
    }
  }

  lemma InvStep(s: State, e: Event)
    requires Inv(s) && Enabled(s, e)
    ensures Inv(Apply(s, e))
  {
    match e
    case WorkerRuns(i) => WorkerInv(s, i);
    case OwnerRuns(i) => OwnerInv(s, i);
    case Spawn(a) => SpawnInv(s, a);
    case _ =>
      var th := s.threads[e.i];
      assert Agrees(th, WordOf(s, th));
      UpdateInv(s, e.i, Apply(s, e).threads[e.i], s.mem);
  }

  lemma {:induction false} InvRun(s: State, es: seq<Event>)
    requires Inv(s) && IsRun(s, es)
    ensures Inv(After(s, es))
    decreases es
  {
    if es != [] {
      InvStep(s, es[0]);
      InvRun(Apply(s, es[0]), es[1..]);
    }
  }

  // ----- the results -----

  /** Over every run: no record is used after its destruction and no unreachable branch is taken;
      each record is destroyed at most once, and it is gone exactly if its join has returned or it was
      detached and its worker is past its own part; `join` returns only after the thread function has; and a joiner sleeps only
      while the worker's wake is still to come. */
  lemma {:induction false} RecordFreedOnce(es: seq<Event>, i: nat)
    requires IsRun(INIT, es) && i < |After(INIT, es).threads|
    ensures var s := After(INIT, es); var th := s.threads[i];
            !s.fault
            && th.frees <= 1
            && (th.frees == 1 <==> th.owner == Joined || (th.owner == Released && th.worker in {Wake, Exited}))
            && (th.owner == Joined ==> th.worker in {Wake, Exited} && th.frees == 1)
            && (th.owner == JoinAsleep ==> th.worker != Exited)
            && (th.frees == 0 <==> Live(s, i))
  {
    InvRun(INIT, es);
    var s := After(INIT, es);
    assert Agrees(s.threads[i], WordOf(s, s.threads[i]));
  }

  lemma {:induction false} RunThen(s: State, es: seq<Event>, e: Event)
    requires IsRun(s, es) && Enabled(After(s, es), e)
    ensures IsRun(s, es + [e]) && After(s, es + [e]) == Apply(After(s, es), e)
    decreases es
  {
    if es == [] {
      assert [e][1..] == [] && es + [e] == [e];
    } else {
      RunThen(Apply(s, es[0]), es[1..], e);
      assert (es + [e])[1..] == es[1..] + [e];
    }
  }

  // ----- every join returns -----

  predicate Joining(o: OwnerPc) {
    o in {JoinLoad, JoinWait, JoinAsleep, JoinCas, JoinFree}
  }

  /** How many steps of worker and owner a join still takes at most once the function has returned. */
  function StepsLeft(th: Thread): nat {
    (if th.worker == SwapDone then 10 else 0)
    + match th.owner
      case JoinAsleep => 5 case JoinWait => 4 case JoinLoad => 3 case JoinCas => 2 case JoinFree => 1 case _ => 0
  }

  /** Steps of worker and owner of thread `i` alone, after which its join has returned. */
  ghost predicate Returns(s: State, es: seq<Event>, i: nat) {
    (forall j :: 0 <= j < |es| ==> es[j] == WorkerRuns(i) || es[j] == OwnerRuns(i))
    && IsRun(s, es) && i < |After(s, es).threads| && After(s, es).threads[i].owner == Joined
  }

  lemma {:induction false} ReturnsFirst(s: State, e: Event, es: seq<Event>, i: nat)
    requires Enabled(s, e) && (e == WorkerRuns(i) || e == OwnerRuns(i)) && Returns(Apply(s, e), es, i)
    ensures Returns(s, [e] + es, i)
  {
    assert ([e] + es)[1..] == es;
  }

  /** One step closer: the worker's if it has to publish or to wake, and else the owner's. */
  lemma {:induction false} JoinStep(s: State, i: nat) returns (e: Event)
    requires Inv(s) && i < |s.threads| && Joining(s.threads[i].owner) && s.threads[i].worker != InFn
    ensures (e == WorkerRuns(i) || e == OwnerRuns(i)) && Enabled(s, e) && |Apply(s, e).threads| == |s.threads|
    ensures var th, th' := s.threads[i], Apply(s, e).threads[i];
            th'.worker != InFn && (Joining(th'.owner) || th'.owner == Joined) && StepsLeft(th') < StepsLeft(th)
  {
    var th := s.threads[i];
    assert Agrees(th, WordOf(s, th));
    e := if th.worker == SwapDone || th.owner == JoinAsleep then WorkerRuns(i) else OwnerRuns(i);
  }

  lemma {:induction false} JoinerReturns(s: State, i: nat) returns (es: seq<Event>)
    requires Inv(s) && i < |s.threads| && Joining(s.threads[i].owner) && s.threads[i].worker != InFn
    ensures Returns(s, es, i)
    decreases StepsLeft(s.threads[i])
  {
    hide Inv, StepsLeft;
    var e := JoinStep(s, i);
    var s' := Apply(s, e);
    InvStep(s, e);
    if s'.threads[i].owner == Joined {
      es := [];
      assert IsRun(s', []) && After(s', []) == s';
    } else {
      es := JoinerReturns(s', i);
    }
    ReturnsFirst(s, e, es, i);
    es := [e] + es;
  }

  /** After any run, a join of a thread whose function has returned can still return, by steps of that
      thread's worker and owner and without a spurious return. */
  lemma {:induction false} NoDeadlock(es: seq<Event>, i: nat) returns (more: seq<Event>)
    requires IsRun(INIT, es) && i < |After(INIT, es).threads|
    requires Joining(After(INIT, es).threads[i].owner) && After(INIT, es).threads[i].worker != InFn
    ensures Returns(After(INIT, es), more, i)
  {
    hide Returns;
    InvRun(INIT, es);
    more := JoinerReturns(After(INIT, es), i);
  }

  // ----- what join and detach do -----

  predicate Detaching(o: OwnerPc) {
    o in {DetachSwap, DetachFree}
  }

  /** In every run after a `join` the owner is joining or has joined, and after a `detach` it is
      detaching or has released the handle. */
  lemma {:induction false} OwnerPath(s: State, es: seq<Event>, i: nat)
    requires i < |s.threads| && IsRun(s, es)
    ensures |After(s, es).threads| >= |s.threads|
    ensures var o, o' := s.threads[i].owner, After(s, es).threads[i].owner;
            (Joining(o) || o == Joined ==> Joining(o') || o' == Joined)
            && (Detaching(o) || o == Released ==> Detaching(o') || o' == Released)
    decreases es
  {
    if es != [] {
      OwnerPathStep(s, es[0], i);
      OwnerPath(Apply(s, es[0]), es[1..], i);
    }
  }

  lemma {:induction false} OwnerPathStep(s: State, e: Event, i: nat)
    requires i < |s.threads| && Enabled(s, e)
    ensures |Apply(s, e).threads| >= |s.threads|
    ensures var o, o' := s.threads[i].owner, Apply(s, e).threads[i].owner;
            (Joining(o) || o == Joined ==> Joining(o') || o' == Joined)
            && (Detaching(o) || o == Released ==> Detaching(o') || o' == Released)
  {
  }

  lemma {:induction false} JoinStaysJoin(s: State, es: seq<Event>, i: nat)
    requires Enabled(s, Join(i)) && IsRun(Apply(s, Join(i)), es)
    ensures var r := After(Apply(s, Join(i)), es);
            i < |r.threads| && (Joining(r.threads[i].owner) || r.threads[i].owner == Joined)
  {
    OwnerPath(Apply(s, Join(i)), es, i);
  }

  lemma {:induction false} DetachStaysDetach(s: State, es: seq<Event>, i: nat)
    requires Enabled(s, Detach(i)) && IsRun(Apply(s, Detach(i)), es)
    ensures var r := After(Apply(s, Detach(i)), es);
            i < |r.threads| && (Detaching(r.threads[i].owner) || r.threads[i].owner == Released)
  {
    OwnerPath(Apply(s, Detach(i)), es, i);
  }

  /** The function has returned and its end is in the record, or was. */
  predicate Published(w: WorkerPc) {
    w in {Wake, Exited}
  }

  /** `detach` does not wait: after any run, on an unused handle, at most two steps of the owner alone
      release it. Before the worker has published its end the record survives, to be destroyed by the
      worker; afterwards the detach has destroyed it. */
  lemma {:induction false} DetachReturns(es: seq<Event>, i: nat) returns (more: seq<Event>)
    requires IsRun(INIT, es) && Enabled(After(INIT, es), Detach(i))
    ensures |more| <= 2 && (forall j :: 0 <= j < |more| ==> more[j] == OwnerRuns(i))
    ensures var s := After(INIT, es); var d := Apply(s, Detach(i));
            IsRun(d, more) && i < |After(d, more).threads| && var th := After(d, more).threads[i];
            th.owner == Released && th.worker == s.threads[i].worker
            && th.frees == (if Published(th.worker) then 1 else 0)
  {
    InvRun(INIT, es);
    var s := After(INIT, es);
    assert Agrees(s.threads[i], WordOf(s, s.threads[i]));
    var d := Apply(s, Detach(i));
    assert WordOf(d, d.threads[i]) == WordOf(s, s.threads[i]);
    more := DetachSteps(d, i);
  }

  lemma {:induction false} DetachSteps(d: State, i: nat) returns (more: seq<Event>)
    requires i < |d.threads| && d.threads[i].owner == DetachSwap && Live(d, i)
    requires d.mem[d.threads[i].addr] == if Published(d.threads[i].worker) then Completed else Running
    ensures |more| <= 2 && (forall j :: 0 <= j < |more| ==> more[j] == OwnerRuns(i))
    ensures IsRun(d, more) && i < |After(d, more).threads|
    ensures var th := After(d, more).threads[i];
            th.owner == Released && th.worker == d.threads[i].worker && th.frees == (if Published(th.worker) then 1 else 0)
  {
    var d1 := OwnerStep(d, i);
    if Published(d.threads[i].worker) {
      var d2 := OwnerStep(d1, i);
      more := [OwnerRuns(i), OwnerRuns(i)];
      assert more[1..] == [OwnerRuns(i)] && more[1..][1..] == [];
      assert IsRun(d2, []) && After(d2, []) == d2;
    } else {
      more := [OwnerRuns(i)];
      assert more[1..] == [] && IsRun(d1, []) && After(d1, []) == d1;
    }
  }

  /** The worker waits for nobody either: after any run, once its function has returned, at most two
      steps of its own end it, and if the handle was released before, it has destroyed the record. */
  lemma {:induction false} WorkerEnds(es: seq<Event>, i: nat) returns (more: seq<Event>)
    requires IsRun(INIT, es) && i < |After(INIT, es).threads| && After(INIT, es).threads[i].worker !in {InFn, Exited}
    ensures |more| <= 2 && (forall j :: 0 <= j < |more| ==> more[j] == WorkerRuns(i))
    ensures var s := After(INIT, es);
            IsRun(s, more) && i < |After(s, more).threads| && var th := After(s, more).threads[i];
            th.worker == Exited && (s.threads[i].owner == Released ==> th.frees == 1)
  {
    InvRun(INIT, es);
    more := WorkerSteps(After(INIT, es), i);
  }

  lemma {:induction false} WorkerSteps(s: State, i: nat) returns (more: seq<Event>)
    requires Inv(s) && i < |s.threads| && s.threads[i].worker !in {InFn, Exited}
    ensures |more| <= (if s.threads[i].worker == SwapDone then 2 else 1)
    ensures (forall j :: 0 <= j < |more| ==> more[j] == WorkerRuns(i)) && IsRun(s, more) && i < |After(s, more).threads|
    ensures After(s, more).threads[i].worker == Exited
    ensures s.threads[i].owner == Released ==> After(s, more).threads[i].frees == 1
    decreases s.threads[i].worker == SwapDone
  {
    var th, s' := s.threads[i], WorkerStep(s, i);
    assert Agrees(th, WordOf(s, th));
    if th.worker == SwapDone {
      WorkerInv(s, i);
      more := WorkerSteps(s', i);
    } else {
      more := [];
      assert IsRun(s', []) && After(s', []) == s';
    }
    assert ([WorkerRuns(i)] + more)[1..] == more;
    more := [WorkerRuns(i)] + more;
  }

  function StepsToSleep(o: OwnerPc): nat {
    match o case JoinLoad => 2 case JoinWait => 1 case _ => 0
  }

  /** `join` waits for the function without spinning: while it runs, at most two steps of the owner
      alone put a joiner to sleep. */
  lemma {:induction false} JoinSleeps(es: seq<Event>, i: nat) returns (more: seq<Event>)
    requires IsRun(INIT, es) && i < |After(INIT, es).threads|
    requires Joining(After(INIT, es).threads[i].owner) && After(INIT, es).threads[i].worker in {InFn, SwapDone}
    ensures |more| <= 2 && (forall j :: 0 <= j < |more| ==> more[j] == OwnerRuns(i))
    ensures var s := After(INIT, es);
            IsRun(s, more) && i < |After(s, more).threads| && After(s, more).threads[i].owner == JoinAsleep
  {
    InvRun(INIT, es);
    var s := After(INIT, es);
    assert Agrees(s.threads[i], WordOf(s, s.threads[i]));
    more := SleepSteps(s, i);
  }

  lemma {:induction false} SleepSteps(s: State, i: nat) returns (more: seq<Event>)
    requires i < |s.threads| && s.threads[i].owner in {JoinLoad, JoinWait, JoinAsleep}
    requires Live(s, i) && s.mem[s.threads[i].addr] == Running
    ensures |more| == StepsToSleep(s.threads[i].owner) && (forall j :: 0 <= j < |more| ==> more[j] == OwnerRuns(i))
    ensures IsRun(s, more) && i < |After(s, more).threads| && After(s, more).threads[i].owner == JoinAsleep
    decreases StepsToSleep(s.threads[i].owner)
  {
    more := [];
    if s.threads[i].owner != JoinAsleep {
      more := SleepSteps(OwnerStep(s, i), i);
      assert ([OwnerRuns(i)] + more)[1..] == more;
      more := [OwnerRuns(i)] + more;
    }
  }

  /** A joiner that the kernel resumes unasked takes nothing for granted: it is awake inside `join`, no
      word and no other thread has changed, and while the function runs it goes back to sleep. */
  lemma {:induction false} SpuriousReturn(es: seq<Event>, i: nat) returns (more: seq<Event>)
    requires IsRun(INIT, es) && Enabled(After(INIT, es), Spurious(i))
    ensures var s := After(INIT, es); var r := Apply(s, Spurious(i));
            |r.threads| == |s.threads| && r.mem == s.mem && r.threads == s.threads[i := r.threads[i]] && Enabled(r, OwnerRuns(i))
            && (s.threads[i].worker in {InFn, SwapDone} ==> IsRun(r, more) && After(r, more) == s)
  {
    InvRun(INIT, es);
    var s := After(INIT, es);
    var th := s.threads[i];
    assert Agrees(th, WordOf(s, th));
    var r := Apply(s, Spurious(i));
    more := [];
    if th.worker in {InFn, SwapDone} {
      JoinerSleeps(r, i);
      var r1 := OwnerStep(r, i);
      var r2 := OwnerStep(r1, i);
      assert r2.threads == s.threads;
      more := [OwnerRuns(i), OwnerRuns(i)];
      assert more[1..] == [OwnerRuns(i)] && more[1..][1..] == [];
      assert IsRun(r2, []) && After(r2, []) == r2;
    }
  }

  // ----- late wakes -----

  /** The worker's wake may come after the joiner freed the record and the address went to another
      thread, whose sleeping joiner it then resumes: the wake may only be given an address, and the
      wait has to be a loop. */
  lemma {:induction false} StaleWake() returns (es: seq<Event>)
    ensures IsRun(INIT, es) && Enabled(After(INIT, es), WorkerRuns(0))
    ensures var s := After(INIT, es);
            |s.threads| == 2 && s.threads[0].frees == 1 && s.threads[0].worker == Wake
            && s.threads[1].owner == JoinAsleep && s.threads[1].worker == InFn
            && Apply(s, WorkerRuns(0)).threads[1].owner == JoinLoad
  {
    hide IsRun, After, WorkerStep, OwnerStep, ResumeAt;
    es := FreedBeforeWake();
    var a, b := Thread(7, Wake, Joined, 1), Thread(7, InFn, Held, 0);
    RunThen(INIT, es, Spawn(7)); es := es + [Spawn(7)];
    assert After(INIT, es) == State(map[7 := Running], [a, b], false);
    RunThen(INIT, es, Join(1)); es := es + [Join(1)];
    assert After(INIT, es) == State(map[7 := Running], [a, b.(owner := JoinLoad)], false);
    JoinerSleeps(State(map[7 := Running], [a, b.(owner := JoinLoad)], false), 1);
    RunThen(INIT, es, OwnerRuns(1)); es := es + [OwnerRuns(1)];
    RunThen(INIT, es, OwnerRuns(1)); es := es + [OwnerRuns(1)];
  }

  lemma {:induction false} OneStep(e: Event)
    requires Enabled(INIT, e)
    ensures IsRun(INIT, [e]) && After(INIT, [e]) == Apply(INIT, e)
  {
    assert [e][1..] == [];
  }

  /** A joiner that finds the thread running goes to sleep, and the wake of a worker at the same address resumes it. */
  lemma JoinerSleeps(s: State, i: nat)
    requires i < |s.threads| && Live(s, i) && s.mem[s.threads[i].addr] == Running && s.threads[i].owner == JoinLoad
    ensures var s1 := OwnerStep(s, i);
            Enabled(s1, OwnerRuns(i)) &&
            var s2 := OwnerStep(s1, i);
            s2 == s.(threads := s.threads[i := s.threads[i].(owner := JoinAsleep)])
            && forall k |
                 0 <= k < |s.threads| && k != i && s.threads[k].worker == Wake && s.threads[k].addr == s.threads[i].addr
                 :: WorkerStep(s2, k).threads[i].owner == JoinLoad
  {
  }

  lemma {:induction false} FreedBeforeWake() returns (es: seq<Event>)
    ensures IsRun(INIT, es) && After(INIT, es) == State(map[], [Thread(7, Wake, Joined, 1)], false)
  {
    hide IsRun, After, ResumeAt;
    es := [Spawn(7)];
    OneStep(Spawn(7));
    assert After(INIT, es) == State(map[7 := Running], [Thread(7, InFn, Held, 0)], false);
    RunThen(INIT, es, FnReturns(0)); es := es + [FnReturns(0)];
    RunThen(INIT, es, WorkerRuns(0)); es := es + [WorkerRuns(0)];
    assert After(INIT, es) == State(map[7 := Completed], [Thread(7, Wake, Held, 0)], false);
    RunThen(INIT, es, Join(0)); es := es + [Join(0)];
    RunThen(INIT, es, OwnerRuns(0)); es := es + [OwnerRuns(0)];
    assert After(INIT, es) == State(map[7 := Completed], [Thread(7, Wake, JoinCas, 0)], false);
    RunThen(INIT, es, OwnerRuns(0)); es := es + [OwnerRuns(0)];
    assert After(INIT, es) == State(map[7 := Detached], [Thread(7, Wake, JoinFree, 0)], false);
    RunThen(INIT, es, OwnerRuns(0)); es := es + [OwnerRuns(0)];
    assert After(INIT, es) == State(map[], [Thread(7, Wake, Joined, 1)], false);
  }
}
