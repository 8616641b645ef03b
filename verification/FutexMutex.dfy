/**
 The three-state futex mutex, as a state machine over the atomic steps of any number of threads.

 One shared word, one program counter per thread, and the kernel's sleepers (the threads whose
 counter is `Asleep`). The kernel compares the word and puts the caller to sleep in one step, may
 wake a sleeper at any time, and on a wake request resumes one sleeper of its choice, if any.
 Atomic operations are sequentially consistent.
 */
module FutexMutex {

  datatype Pc =
    | Idle          // outside every method, holding no guard
    | LockCas       // lock: about to compare_exchange(0, 1)
    | TryCas        // try_lock: about to compare_exchange(0, 1)
    | Swap          // lock: about to swap(2)
    | Wait          // lock: about to call futex_wait(2)
    | Asleep        // lock: asleep in the kernel
    | Critical      // holds the guard
    | UnlockStore   // unlock: fetch_sub did not return 1, about to store(0)
    | UnlockWake    // unlock: about to call futex_wake_one

  datatype State = State(word: int, pcs: seq<Pc>)

  datatype Event =
    | CallLock(t: nat)
    | CallTryLock(t: nat)
    | Run(t: nat)                    // the thread's next atomic operation
    | Wake(t: nat, sleeper: nat)     // futex_wake_one resumes `sleeper`
    | WakeNone(t: nat)               // futex_wake_one finds nobody asleep
    | Spurious(t: nat)               // the kernel returns from futex_wait unasked

  /** The program text: the next atomic operation of a thread at `pc`, as new counter and new word. */
  function Exec(pc: Pc, word: int): (Pc, int)
    requires pc in {LockCas, TryCas, Swap, Wait, Critical, UnlockStore}
  {
    match pc
    case LockCas => if word == 0 then (Critical, 1) else (Swap, word)
    case TryCas => if word == 0 then (Critical, 1) else (Idle, word)
    case Swap => (if word == 0 then Critical else Wait, 2)
    case Wait => (if word == 2 then Asleep else Swap, word)
    case Critical => (if word != 1 then UnlockStore else Idle, word - 1)
    case UnlockStore => (UnlockWake, 0)
  }

  predicate Enabled(s: State, e: Event) {
    e.t < |s.pcs| &&
    match e
    case CallLock(t) => s.pcs[t] == Idle
    case CallTryLock(t) => s.pcs[t] == Idle
    case Run(t) => s.pcs[t] in {LockCas, TryCas, Swap, Wait, Critical, UnlockStore}
    case Wake(t, u) => s.pcs[t] == UnlockWake && u < |s.pcs| && s.pcs[u] == Asleep
    case WakeNone(t) => s.pcs[t] == UnlockWake && Asleep !in s.pcs
    case Spurious(t) => s.pcs[t] == Asleep
  }

  function Apply(s: State, e: Event): (s': State)
    requires Enabled(s, e)
    ensures |s'.pcs| == |s.pcs|
  {
    match e
    case CallLock(t) => s.(pcs := s.pcs[t := LockCas])
    case CallTryLock(t) => s.(pcs := s.pcs[t := TryCas])
    case Run(t) => var (pc, w) := Exec(s.pcs[t], s.word); State(w, s.pcs[t := pc])
    case Wake(t, u) => s.(pcs := s.pcs[t := Idle][u := Swap])
    case WakeNone(t) => s.(pcs := s.pcs[t := Idle])
    case Spurious(t) => s.(pcs := s.pcs[t := Swap])
  }

  /** `es` is a run from `s`: each event is enabled when its turn comes. */
  predicate IsRun(s: State, es: seq<Event>)
    decreases es
  {
    es == [] || (Enabled(s, es[0]) && IsRun(Apply(s, es[0]), es[1..]))
  }

  function After(s: State, es: seq<Event>): (s': State)
    requires IsRun(s, es)
    ensures |s'.pcs| == |s.pcs|
    decreases es
  {
    if es == [] then s else After(Apply(s, es[0]), es[1..])
  }

  predicate Init(s: State) {
    s.word == 0 && forall i :: 0 <= i < |s.pcs| ==> s.pcs[i] == Idle
  }

  // ----- what holds in every reachable state -----

  /** The thread owns the lock: from the operation that took it until the word goes back to 0. */
  predicate Owns(pc: Pc) {
    pc == Critical || pc == UnlockStore
  }

  ghost predicate Exclusive(s: State) {
    0 <= s.word <= 2
    && (forall i, j :: 0 <= i < |s.pcs| && 0 <= j < |s.pcs| && Owns(s.pcs[i]) && Owns(s.pcs[j]) ==> i == j)
    && (s.word == 0 <==> forall i :: 0 <= i < |s.pcs| ==> !Owns(s.pcs[i]))
  }

  /** Somebody is on the way to resume a sleeper: a holder that will see 2 when it unlocks, an
      unlocker whose wake is still to come, or a thread about to swap in 2. */
  ghost predicate WakePending(s: State) {
    (s.word == 2 && Critical in s.pcs) || UnlockStore in s.pcs || UnlockWake in s.pcs || Swap in s.pcs
  }

  ghost predicate Inv(s: State) {
    Exclusive(s) && (Asleep in s.pcs ==> WakePending(s))
  }

  /** A step of one thread that takes, keeps or gives up the lock as the word says. */
  lemma {:induction false} MoveOne(s: State, t: nat, pc: Pc, word: int)
    requires Exclusive(s) && t < |s.pcs| && 0 <= word <= 2
    requires Owns(pc) ==> s.word == 0 || Owns(s.pcs[t])
    requires word == 0 <==> !Owns(pc) && (s.word == 0 || Owns(s.pcs[t]))
    ensures Exclusive(State(word, s.pcs[t := pc]))
  {
    var s' := State(word, s.pcs[t := pc]);
    assert s'.pcs[t] == pc;
    if s.word != 0 {
      var o :| 0 <= o < |s.pcs| && Owns(s.pcs[o]);
      assert o != t ==> Owns(s'.pcs[o]);
    }
    assert forall i :: 0 <= i < |s.pcs| && i != t ==> s'.pcs[i] == s.pcs[i];
  }

  lemma {:induction false} ExclusiveStep(s: State, e: Event)
    requires Exclusive(s) && Enabled(s, e)
    ensures Exclusive(Apply(s, e))
  {
    var s' := Apply(s, e);
    if e.Run? {
      OwnerWord(s, e.t);
      var (pc, word) := Exec(s.pcs[e.t], s.word);
      MoveOne(s, e.t, pc, word);
    } else {
      assert forall i :: 0 <= i < |s.pcs| ==> Owns(s'.pcs[i]) == Owns(s.pcs[i]);
    }
  }

  lemma {:induction false} OwnerWord(s: State, t: nat)
    requires Exclusive(s) && t < |s.pcs|
    ensures 0 <= s.word <= 2 && (Owns(s.pcs[t]) ==> s.word != 0)
  {
  }

  lemma StillIn(s: State, e: Event, pc: Pc)
    requires Enabled(s, e) && pc in s.pcs && s.pcs[e.t] != pc && !(e.Wake? && s.pcs[e.sleeper] == pc)
    ensures pc in Apply(s, e).pcs
  {
    var i :| 0 <= i < |s.pcs| && s.pcs[i] == pc;
    assert Apply(s, e).pcs[i] == pc;
  }

  /** With the word at 2 there is an owner, and an owner is a wake to come. */
  lemma WordTwoIsPending(s: State)
    requires Exclusive(s) && s.word == 2
    ensures WakePending(s)
  {
    var o :| 0 <= o < |s.pcs| && Owns(s.pcs[o]);
    assert s.pcs[o] in s.pcs;
  }

  lemma InvStep(s: State, e: Event)
    requires Inv(s) && Enabled(s, e)
    ensures Inv(Apply(s, e))
  {
    var s' := Apply(s, e);
    ExclusiveStep(s, e);
    assert s'.pcs[e.t] in s'.pcs;
    if e.Wake? { assert s'.pcs[e.sleeper] in s'.pcs; }
    if Asleep in s'.pcs && s'.word == 2 {
      WordTwoIsPending(s');
    } else if Asleep in s'.pcs {
      assert Asleep in s.pcs;
      if UnlockStore in s.pcs && s.pcs[e.t] != UnlockStore { StillIn(s, e, UnlockStore); }
      if UnlockWake in s.pcs && s.pcs[e.t] != UnlockWake { StillIn(s, e, UnlockWake); }
      if Swap in s.pcs && s.pcs[e.t] != Swap { StillIn(s, e, Swap); }
      if Critical in s.pcs && s.pcs[e.t] != Critical { StillIn(s, e, Critical); }
    }
  }

  lemma {:induction false} InvRun(s: State, es: seq<Event>)
    requires Inv(s) && IsRun(s, es)
    ensures Inv(After(s, es))
    decreases es
  {
    if es != [] {
      InvStep(s, es[0]);
      InvRun(Apply(s, es[0]), es[1..]);
    }
  }

  /** Mutual exclusion: after any run of any number of threads, at most one holds the guard, and
      the word is 0 exactly when no thread owns the lock. */
  lemma {:induction false} MutualExclusion(s: State, es: seq<Event>)
    requires Init(s) && IsRun(s, es)
    ensures var r := After(s, es);
            0 <= r.word <= 2
            && (forall i, j :: 0 <= i < |r.pcs| && 0 <= j < |r.pcs| && Owns(r.pcs[i]) && Owns(r.pcs[j]) ==> i == j)
            && (r.word == 0 <==> forall i :: 0 <= i < |r.pcs| ==> !Owns(r.pcs[i]))
  {
    InvRun(s, es);
  }

  /** No lost wake-up: after any run, whenever a thread sleeps a wake is on its way; in particular
      the lock is never free with every waiter asleep. */
  lemma {:induction false} NoLostWakeup(s: State, es: seq<Event>)
    requires Init(s) && IsRun(s, es)
    ensures var r := After(s, es);
            (Asleep in r.pcs ==> WakePending(r))
            && (Asleep in r.pcs ==> exists i :: 0 <= i < |r.pcs| && r.pcs[i] !in {Idle, LockCas, TryCas, Wait, Asleep})
  {
    InvRun(s, es);
  }

  /** An attempt to take the lock succeeds exactly when no thread owns it, and a try that fails is over. */
  lemma {:induction false} AcquiredIffFree(s: State, es: seq<Event>, t: nat)
    requires Init(s) && IsRun(s, es) && t < |s.pcs| && After(s, es).pcs[t] in {LockCas, TryCas, Swap}
    ensures var r := After(s, es); var pc := Apply(r, Run(t)).pcs[t];
            (pc == Critical <==> forall i :: 0 <= i < |s.pcs| ==> !Owns(r.pcs[i]))
            && (r.pcs[t] == TryCas ==> pc in {Critical, Idle})
  {
    InvRun(s, es);
  }

  /** A thread on its own never reaches a kernel call. */
  lemma {:induction false} UncontendedNeedsNoKernel(s: State, es: seq<Event>)
    requires |s.pcs| == 1 && IsRun(s, es)
    requires if s.pcs[0] == Critical then s.word == 1 else s.word == 0 && s.pcs[0] in {Idle, LockCas, TryCas}
    ensures After(s, es).pcs[0] in {Idle, LockCas, TryCas, Critical}
    decreases es
  {
    if es != [] { UncontendedNeedsNoKernel(Apply(s, es[0]), es[1..]); }
  }

  // ----- every sleeper can still get the lock -----

  /** Only operations of threads already inside the mutex: no new call, no spurious return. */
  predicate Internal(es: seq<Event>) {
    forall i :: 0 <= i < |es| ==> es[i].Run? || es[i].Wake?
  }

  /** `es` leads from `s` to a state in which `w` holds the guard. */
  ghost predicate Grants(s: State, es: seq<Event>, w: nat) {
    Internal(es) && IsRun(s, es) && w < |s.pcs| && After(s, es).pcs[w] == Critical
  }

  lemma GrantsFirst(s: State, e: Event, es: seq<Event>, w: nat)
    requires Enabled(s, e) && (e.Run? || e.Wake?) && Grants(Apply(s, e), es, w)
    ensures Grants(s, [e] + es, w)
  {
    assert ([e] + es)[1..] == es;
  }

  /** A thread about to swap gets the lock, waiting out a present owner if there is one. */
  lemma SwapperAcquires(s: State, w: nat) returns (es: seq<Event>)
    requires Exclusive(s) && w < |s.pcs| && s.pcs[w] == Swap
    ensures Grants(s, es, w)
  {
    var s1 := Apply(s, Run(w));
    if s.word == 0 {
      assert Grants(s1, [], w);
      es := [];
    } else {
      ExclusiveStep(s, Run(w));
      var o :| 0 <= o < |s.pcs| && Owns(s1.pcs[o]);
      es := OwnerLeaves(s1, o, w);
    }
    GrantsFirst(s, Run(w), es, w);
    es := [Run(w)] + es;
  }

  /** With `w` about to call futex_wait and the word at 2, the owner finishes and `w` finds it free. */
  lemma OwnerLeaves(s: State, o: nat, w: nat) returns (es: seq<Event>)
    requires s.word == 2 && o < |s.pcs| && Owns(s.pcs[o]) && w < |s.pcs| && s.pcs[w] == Wait
    ensures Grants(s, es, w)
  {
    var s1 := if s.pcs[o] == Critical then Apply(s, Run(o)) else s;
    var s2 := Apply(s1, Run(o));
    var s3 := Apply(s2, Run(w));
    assert Grants(Apply(s3, Run(w)), [], w);
    GrantsFirst(s3, Run(w), [], w);
    GrantsFirst(s2, Run(w), [Run(w)] + [], w);
    es := [Run(w)] + ([Run(w)] + []);
    GrantsFirst(s1, Run(o), es, w);
    es := [Run(o)] + es;
    if s.pcs[o] == Critical {
      GrantsFirst(s, Run(o), es, w);
      es := [Run(o)] + es;
    }
  }

  /** An unlocker that still has to store or wake resumes `w`. */
  lemma UnlockerResumes(s: State, h: nat, w: nat) returns (es: seq<Event>)
    requires Exclusive(s) && h < |s.pcs| && s.pcs[h] in {UnlockStore, UnlockWake}
    requires w < |s.pcs| && s.pcs[w] == Asleep
    ensures Grants(s, es, w)
    decreases s.pcs[h] == UnlockStore
  {
    if s.pcs[h] == UnlockStore {
      ExclusiveStep(s, Run(h));
      es := UnlockerResumes(Apply(s, Run(h)), h, w);
      GrantsFirst(s, Run(h), es, w);
      es := [Run(h)] + es;
    } else {
      ExclusiveStep(s, Wake(h, w));
      es := SwapperAcquires(Apply(s, Wake(h, w)), w);
      GrantsFirst(s, Wake(h, w), es, w);
      es := [Wake(h, w)] + es;
    }
  }

  lemma SleeperCanAcquire(s: State, w: nat) returns (es: seq<Event>)
    requires Inv(s) && w < |s.pcs| && s.pcs[w] == Asleep
    ensures Grants(s, es, w)
    decreases Swap in s.pcs && UnlockStore !in s.pcs && UnlockWake !in s.pcs && !(s.word == 2 && Critical in s.pcs)
  {
    assert Asleep in s.pcs;
    if UnlockStore in s.pcs || UnlockWake in s.pcs {
      var h :| 0 <= h < |s.pcs| && s.pcs[h] in {UnlockStore, UnlockWake};
      es := UnlockerResumes(s, h, w);
    } else if s.word == 2 {
      WordTwoIsPending(s);
      var h :| 0 <= h < |s.pcs| && Owns(s.pcs[h]);
      assert s.pcs[h] == Critical;
      ExclusiveStep(s, Run(h));
      es := UnlockerResumes(Apply(s, Run(h)), h, w);
      GrantsFirst(s, Run(h), es, w);
      es := [Run(h)] + es;
    } else {
      var u :| 0 <= u < |s.pcs| && s.pcs[u] == Swap;
      InvStep(s, Run(u));
      var s' := Apply(s, Run(u));
      var h :| 0 <= h < |s'.pcs| && Owns(s'.pcs[h]);
      assert s'.pcs[h] in s'.pcs;
      es := SleeperCanAcquire(s', w);
      GrantsFirst(s, Run(u), es, w);
      es := [Run(u)] + es;
    }
  }

  /** Inside `lock`, without the guard yet. */
  predicate Locking(pc: Pc) {
    pc in {LockCas, Swap, Wait, Asleep}
  }

  lemma {:induction false} LockerCanAcquire(s: State, w: nat) returns (es: seq<Event>)
    requires Inv(s) && w < |s.pcs| && Locking(s.pcs[w])
    ensures Grants(s, es, w)
  {
    if s.pcs[w] == Asleep {
      es := SleeperCanAcquire(s, w);
    } else if s.pcs[w] == Swap {
      es := SwapperAcquires(s, w);
    } else {
      InvStep(s, Run(w));
      var s' := Apply(s, Run(w));
      if s'.pcs[w] == Critical {
        es := [];
        assert Grants(s', es, w);
      } else if s'.pcs[w] == Swap {
        es := SwapperAcquires(s', w);
      } else {
        es := SleeperCanAcquire(s', w);
      }
      GrantsFirst(s, Run(w), es, w);
      es := [Run(w)] + es;
    }
  }

  /** Deadlock freedom: after any run, each thread inside `lock` can still be granted the lock by
      operations of threads already inside the mutex, with no help from new callers or from
      spurious returns. */
  lemma {:induction false} NoDeadlock(s: State, es: seq<Event>, w: nat) returns (more: seq<Event>)
    requires Init(s) && IsRun(s, es) && w < |s.pcs| && Locking(After(s, es).pcs[w])
    ensures Internal(more) && IsRun(After(s, es), more) && After(After(s, es), more).pcs[w] == Critical
  {
    InvRun(s, es);
    more := LockerCanAcquire(After(s, es), w);
  }

  // ----- what the calls come back with -----

  /** At some point of the run the thread is at `pc`. */
  ghost predicate Visits(s: State, es: seq<Event>, t: nat, pc: Pc) {
    exists n :: VisitsAt(s, es, t, pc, n)
  }

  predicate VisitsAt(s: State, es: seq<Event>, t: nat, pc: Pc, n: int) {
    0 <= n <= |es| && IsRun(s, es[..n]) && t < |s.pcs| && After(s, es[..n]).pcs[t] == pc
  }

  lemma {:induction false} VisitsNow(s: State, es: seq<Event>, t: nat)
    requires t < |s.pcs|
    ensures Visits(s, es, t, s.pcs[t])
  {
    assert es[..0] == [] && VisitsAt(s, es, t, s.pcs[t], 0);
  }

  lemma {:induction false} VisitsLater(s: State, es: seq<Event>, t: nat, pc: Pc)
    requires es != [] && Enabled(s, es[0]) && Visits(Apply(s, es[0]), es[1..], t, pc)
    ensures Visits(s, es, t, pc)
  {
    var n :| VisitsAt(Apply(s, es[0]), es[1..], t, pc, n);
    assert es[..n + 1][1..] == es[1..][..n];
    assert VisitsAt(s, es, t, pc, n + 1);
  }

  /** `lock` never ends without the guard: in every run after the call, a thread that is out of `lock`
      again has held the guard on the way. */
  lemma {:induction false} LockEndsWithGuard(s: State, es: seq<Event>, t: nat)
    requires t < |s.pcs| && Locking(s.pcs[t]) && IsRun(s, es) && !Locking(After(s, es).pcs[t])
    ensures Visits(s, es, t, Critical)
    decreases es
  {
    hide Visits;
    var s' := Apply(s, es[0]);
    if s'.pcs[t] == Critical {
      VisitsNow(s', es[1..], t);
    } else {
      LockEndsWithGuard(s', es[1..], t);
    }
    VisitsLater(s, es, t, Critical);
  }

  lemma {:induction false} CallLockGetsGuard(s: State, es: seq<Event>, t: nat)
    requires Enabled(s, CallLock(t)) && IsRun(Apply(s, CallLock(t)), es)
    requires After(Apply(s, CallLock(t)), es).pcs[t] == Idle
    ensures Visits(Apply(s, CallLock(t)), es, t, Critical)
  {
    hide Visits;
    LockEndsWithGuard(Apply(s, CallLock(t)), es, t);
  }

  /** No event of thread `t` itself. */
  predicate Without(es: seq<Event>, t: nat) {
    forall i :: 0 <= i < |es| ==> es[i].t != t
  }

  lemma {:induction false} OthersLeaveAlone(s: State, es: seq<Event>, t: nat)
    requires IsRun(s, es) && Without(es, t) && t < |s.pcs| && s.pcs[t] != Asleep
    ensures After(s, es).pcs[t] == s.pcs[t]
    decreases es
  {
    if es != [] { OthersLeaveAlone(Apply(s, es[0]), es[1..], t); }
  }

  lemma {:induction false} RunConcat(s: State, es: seq<Event>, fs: seq<Event>)
    requires IsRun(s, es) && IsRun(After(s, es), fs)
    ensures IsRun(s, es + fs) && After(s, es + fs) == After(After(s, es), fs)
    decreases es
  {
    if es == [] {
      assert es + fs == fs;
    } else {
      RunConcat(Apply(s, es[0]), es[1..], fs);
      assert (es + fs)[1..] == es[1..] + fs;
    }
  }

  /** `try_lock` takes one operation, whatever the others do before it: with the guard if nobody owns
      the lock then, and without it if somebody does. */
  lemma {:induction false} TryLockOutcome(s: State, es: seq<Event>, t: nat, fs: seq<Event>)
    requires Init(s) && IsRun(s, es) && Enabled(After(s, es), CallTryLock(t))
    requires IsRun(Apply(After(s, es), CallTryLock(t)), fs) && Without(fs, t)
    ensures var r := After(Apply(After(s, es), CallTryLock(t)), fs);
            Enabled(r, Run(t)) && Apply(r, Run(t)).pcs[t]
            == if forall i :: 0 <= i < |r.pcs| ==> !Owns(r.pcs[i]) then Critical else Idle
  {
    InvRun(s, es);
    var r0 := After(s, es);
    var r1 := Apply(r0, CallTryLock(t));
    InvStep(r0, CallTryLock(t));
    InvRun(r1, fs);
    OthersLeaveAlone(r1, fs, t);
  }

  /** `es` are operations of `t` alone, at most `n` of them, that bring it from `s` to `pc`. */
  ghost predicate Alone(s: State, es: seq<Event>, t: nat, n: nat, pc: Pc) {
    |es| <= n && (forall i :: 0 <= i < |es| ==> es[i].t == t && !es[i].CallLock? && !es[i].CallTryLock? && !es[i].Spurious?)
    && IsRun(s, es) && t < |s.pcs| && After(s, es).pcs[t] == pc
  }

  lemma {:induction false} AloneFirst(s: State, e: Event, es: seq<Event>, t: nat, n: nat, pc: Pc)
    requires Enabled(s, e) && e.t == t && (e.Run? || e.Wake? || e.WakeNone?) && Alone(Apply(s, e), es, t, n, pc)
    ensures Alone(s, [e] + es, t, n + 1, pc)
  {
    assert ([e] + es)[1..] == es;
  }

  /** Contended, `lock` does not spin: while another thread owns the lock, at most three operations
      of its own put the caller to sleep. */
  lemma {:induction false} LockerSleeps(s: State, t: nat, o: nat) returns (es: seq<Event>)
    requires Exclusive(s) && t < |s.pcs| && Locking(s.pcs[t]) && o < |s.pcs| && Owns(s.pcs[o])
    ensures Alone(s, es, t, SpinSteps(s.pcs[t], s.word), Asleep) && SpinSteps(s.pcs[t], s.word) <= 3
    decreases SpinSteps(s.pcs[t], s.word)
  {
    if s.pcs[t] == Asleep {
      es := [];
    } else {
      ExclusiveStep(s, Run(t));
      var s' := Apply(s, Run(t));
      assert s'.pcs[o] == s.pcs[o];
      es := LockerSleeps(s', t, o);
      AloneFirst(s, Run(t), es, t, SpinSteps(s'.pcs[t], s'.word), Asleep);
      es := [Run(t)] + es;
    }
  }

  function SpinSteps(pc: Pc, word: int): nat {
    match pc case LockCas => 3 case Swap => 2 case Wait => if word == 2 then 1 else 3 case _ => 0
  }

  /** A thread that the kernel resumes unasked takes nothing for granted: it is awake inside `lock`, and
      nothing else has changed. */
  lemma {:induction false} SpuriousReturn(s: State, t: nat)
    requires Enabled(s, Spurious(t))
    ensures var r := Apply(s, Spurious(t));
            r.word == s.word && r.pcs == s.pcs[t := r.pcs[t]] && Locking(r.pcs[t]) && Enabled(r, Run(t))
  {
    var r := Apply(s, Spurious(t));
    assert r.pcs[t] == Swap;
  }

  /** The guard stays with its thread until that thread unlocks, and unlocking takes at most three
      operations of its own, after which the word is 0. */
  lemma {:induction false} UnlockReturns(s: State, t: nat) returns (es: seq<Event>)
    requires Exclusive(s) && t < |s.pcs| && (Owns(s.pcs[t]) || s.pcs[t] == UnlockWake)
    ensures Alone(s, es, t, UnlockSteps(s.pcs[t]), Idle) && UnlockSteps(s.pcs[t]) <= 3
    ensures After(s, es).word == if Owns(s.pcs[t]) then 0 else s.word
    decreases UnlockSteps(s.pcs[t])
  {
    if s.pcs[t] == UnlockWake {
      var e := if Asleep in s.pcs then var u :| 0 <= u < |s.pcs| && s.pcs[u] == Asleep; Wake(t, u) else WakeNone(t);
      es := [];
      AloneFirst(s, e, es, t, 0, Idle);
      es := [e] + es;
      assert es[1..] == [];
    } else {
      OwnerWord(s, t);
      ExclusiveStep(s, Run(t));
      var s' := Apply(s, Run(t));
      if s'.pcs[t] == Idle {
        es := [];
        AloneFirst(s, Run(t), es, t, 0, Idle);
      } else {
        es := UnlockReturns(s', t);
        AloneFirst(s, Run(t), es, t, UnlockSteps(s'.pcs[t]), Idle);
      }
      assert ([Run(t)] + es)[1..] == es;
      es := [Run(t)] + es;
    }
  }

  function UnlockSteps(pc: Pc): nat {
    match pc case Critical => 3 case UnlockStore => 2 case _ => 1
  }
}
