/**
 The readers-writer spin lock with upgrade, over any number of threads and every interleaving of
 their atomic operations. One 32-bit word: the top bit is the writer, the rest counts readers.
 A weak compare-exchange may fail for no reason. Atomic operations are sequentially consistent.
 */
module SharedLock {

  const WRITER := 0x8000_0000
  const WORD := 0x1_0000_0000

  datatype Pc =
    | Out                      // holds nothing
    | LockCas                  // lock: spinning on compare-exchange 0 -> WRITER
    | TryCas                   // tryLock: about to compare-exchange 0 -> WRITER
    | SharedLoad(try: bool)    // lockShared or tryLockShared: about to load the word
    | SharedCas(seen: nat, try: bool)  // about to compare-exchange seen -> seen + 1
    | Reader                   // holds the lock shared
    | Upgrading                // relock: holds it shared, spinning on compare-exchange 1 -> WRITER
    | Writer                   // holds the lock exclusively

  datatype State = State(word: nat, pcs: seq<Pc>)

  datatype Event =
    | Call(t: nat, pc: Pc)     // enter a method
    | Run(t: nat)              // the next atomic operation, doing what it is meant to do
    | WeakFail(t: nat)         // a weak compare-exchange fails although the word matches
    | Unlock(t: nat)
    | UnlockShared(t: nat)

  predicate Enabled(s: State, e: Event) {
    e.t < |s.pcs| &&
    match e
    case Call(t, pc) =>
      (s.pcs[t] == Out && pc in {LockCas, TryCas, SharedLoad(false), SharedLoad(true)})
      || (s.pcs[t] == Reader && pc == Upgrading)
    case Run(t) => s.pcs[t] !in {Out, Reader, Writer}
    case WeakFail(t) => s.pcs[t] !in {Out, Reader, Writer} && !s.pcs[t].SharedLoad?
    case Unlock(t) => s.pcs[t] == Writer
    case UnlockShared(t) => s.pcs[t] == Reader
  }

  /** Where a failed compare-exchange leaves the thread: spinning, or back to its caller. */
  function Failed(pc: Pc): Pc {
    match pc
    case TryCas => Out
    case SharedCas(_, try) => if try then Out else SharedLoad(false)
    case _ => pc
  }

  function Exec(pc: Pc, word: nat): (Pc, nat) {
    match pc
    case LockCas => if word == 0 then (Writer, WRITER) else (Failed(pc), word)
    case TryCas => if word == 0 then (Writer, WRITER) else (Failed(pc), word)
    case Upgrading => if word == 1 then (Writer, WRITER) else (Failed(pc), word)
    case SharedLoad(try) =>
      if word / WRITER % 2 == 0 then (SharedCas(word, try), word) else (if try then Out else pc, word)
    case SharedCas(seen, _) => if word == seen then (Reader, (seen + 1) % WORD) else (Failed(pc), word)
    case _ => (pc, word)
  }

  function Apply(s: State, e: Event): (s': State)
    requires Enabled(s, e)
    ensures |s'.pcs| == |s.pcs|
  {
    match e
    case Call(t, pc) => s.(pcs := s.pcs[t := pc])
    case Run(t) => var (pc, w) := Exec(s.pcs[t], s.word); State(w, s.pcs[t := pc])
    case WeakFail(t) => s.(pcs := s.pcs[t := Failed(s.pcs[t])])
    case Unlock(t) => State(0, s.pcs[t := Out])
    case UnlockShared(t) => State((s.word + WORD - 1) % WORD, s.pcs[t := Out])
  }

  predicate IsRun(s: State, es: seq<Event>)
    decreases es
  {
    es == [] || (Enabled(s, es[0]) && IsRun(Apply(s, es[0]), es[1..]))
  }

  function After(s: State, es: seq<Event>): (s': State)
    requires IsRun(s, es)
    ensures |s'.pcs| == |s.pcs|
    decreases es
  {
    if es == [] then s else After(Apply(s, es[0]), es[1..])
  }

  predicate Init(s: State) {
    s.word == 0 && forall i :: 0 <= i < |s.pcs| ==> s.pcs[i] == Out
  }

  // ----- counting holders -----

  predicate Shares(pc: Pc) {
    pc == Reader || pc == Upgrading
  }

  function Readers(pcs: seq<Pc>): (n: nat)
    ensures n <= |pcs|
  {
    if pcs == [] then 0 else Readers(pcs[..|pcs| - 1]) + (if Shares(pcs[|pcs| - 1]) then 1 else 0)
  }

  function Bit(b: bool): nat {
    if b then 1 else 0
  }

  lemma {:induction false} ReadersUpdate(pcs: seq<Pc>, t: nat, pc: Pc)
    requires t < |pcs|
    ensures Readers(pcs[t := pc]) == Readers(pcs) - Bit(Shares(pcs[t])) + Bit(Shares(pc))
  {
    var n := |pcs| - 1;
    if t == n {
      assert pcs[t := pc][..n] == pcs[..n];
    } else {
      assert pcs[t := pc][..n] == pcs[..n][t := pc];
      ReadersUpdate(pcs[..n], t, pc);
    }
  }

  lemma {:induction false} SomeReader(pcs: seq<Pc>, t: nat)
    requires t < |pcs| && Shares(pcs[t])
    ensures Readers(pcs) >= 1
    ensures (exists u :: 0 <= u < |pcs| && u != t && Shares(pcs[u])) ==> Readers(pcs) >= 2
  {
    ReadersUpdate(pcs, t, Out);
    if u :| 0 <= u < |pcs| && u != t && Shares(pcs[u]) {
      ReadersUpdate(pcs[t := Out], u, Out);
    }
  }

  /** At least one thread is not a reader, so the count is below the number of threads. */
  lemma {:induction false} NotAllReaders(pcs: seq<Pc>, t: nat)
    requires t < |pcs| && !Shares(pcs[t])
    ensures Readers(pcs) < |pcs|
  {
    ReadersUpdate(pcs, t, Reader);
  }

  lemma {:induction false} NoReaders(pcs: seq<Pc>)
    ensures Readers(pcs) == 0 <==> forall i :: 0 <= i < |pcs| ==> !Shares(pcs[i])
  {
    if pcs != [] {
      NoReaders(pcs[..|pcs| - 1]);
      assert forall i :: 0 <= i < |pcs| - 1 ==> pcs[i] == pcs[..|pcs| - 1][i];
    }
  }

  // ----- what holds in every reachable state -----

  /** The word says exactly who holds the lock. */
  ghost predicate Encodes(s: State) {
    if s.word == WRITER then
      Readers(s.pcs) == 0
      && (exists w :: 0 <= w < |s.pcs| && s.pcs[w] == Writer)
      && (forall i, j :: 0 <= i < |s.pcs| && 0 <= j < |s.pcs| && s.pcs[i] == Writer && s.pcs[j] == Writer ==> i == j)
    else
      s.word == Readers(s.pcs) && Writer !in s.pcs
  }

  /** A remembered word had no writer bit. */
  ghost predicate Inv(s: State) {
    Encodes(s) && forall i :: 0 <= i < |s.pcs| && s.pcs[i].SharedCas? ==> s.pcs[i].seen < WRITER
  }

  lemma Quiet(s: State, t: nat, pc: Pc)
    requires Encodes(s) && t < |s.pcs| && Shares(pc) == Shares(s.pcs[t]) && (pc == Writer <==> s.pcs[t] == Writer)
    ensures Encodes(s.(pcs := s.pcs[t := pc]))
  {
    var pcs := s.pcs[t := pc];
    ReadersUpdate(s.pcs, t, pc);
    assert forall i :: 0 <= i < |pcs| ==> (pcs[i] == Writer <==> s.pcs[i] == Writer);
    if s.word == WRITER {
      var w :| 0 <= w < |s.pcs| && s.pcs[w] == Writer;
      assert pcs[w] == Writer;
    }
  }

  lemma TakeWrite(s: State, t: nat)
    requires Encodes(s) && t < |s.pcs| && s.word == Bit(Shares(s.pcs[t]))
    ensures Encodes(State(WRITER, s.pcs[t := Writer]))
  {
    ReadersUpdate(s.pcs, t, Writer);
    assert s.pcs[t := Writer][t] == Writer;
  }

  lemma TakeRead(s: State, t: nat)
    requires Encodes(s) && t < |s.pcs| && s.word + 1 < WRITER && !Shares(s.pcs[t])
    ensures Encodes(State(s.word + 1, s.pcs[t := Reader]))
  {
    ReadersUpdate(s.pcs, t, Reader);
  }

  lemma DropWrite(s: State, t: nat)
    requires Encodes(s) && t < |s.pcs| && s.pcs[t] == Writer
    ensures Encodes(State(0, s.pcs[t := Out]))
  {
    assert s.pcs[t] in s.pcs;
    ReadersUpdate(s.pcs, t, Out);
  }

  lemma DropRead(s: State, t: nat)
    requires Encodes(s) && |s.pcs| < WRITER && t < |s.pcs| && Shares(s.pcs[t])
    ensures 0 < s.word < WRITER && Encodes(State(s.word - 1, s.pcs[t := Out]))
  {
    SomeReader(s.pcs, t);
    ReadersUpdate(s.pcs, t, Out);
  }

  /** No step breaks the encoding while there are fewer than 2^31 threads. */
  lemma InvStep(s: State, e: Event)
    requires |s.pcs| < WRITER && Inv(s) && Enabled(s, e)
    ensures Inv(Apply(s, e))
  {
    hide Encodes;
    var s', t := Apply(s, e), e.t;
    match e
    case Unlock(_) => DropWrite(s, t);
    case UnlockShared(_) => DropRead(s, t);
    case Call(_, pc) => Quiet(s, t, pc);
    case WeakFail(_) => Quiet(s, t, Failed(s.pcs[t]));
    case Run(_) =>
      WordBound(s);
      if s'.pcs[t] == Writer {
        TakeWrite(s, t);
      } else if s'.pcs[t] == Reader {
        NotAllReaders(s.pcs, t);
        WordBelow(s, t);
        TakeRead(s, t);
      } else {
        Quiet(s, t, s'.pcs[t]);
      }
  }

  lemma WordBound(s: State)
    requires |s.pcs| < WRITER && Encodes(s)
    ensures s.word <= WRITER
  {
  }

  lemma WordBelow(s: State, t: nat)
    requires |s.pcs| < WRITER && Encodes(s) && t < |s.pcs| && !Shares(s.pcs[t]) && s.word != WRITER
    ensures s.word + 1 < WRITER
  {
    NotAllReaders(s.pcs, t);
  }

  lemma {:induction false} InvRun(s: State, es: seq<Event>)
    requires |s.pcs| < WRITER && Inv(s) && IsRun(s, es)
    ensures Inv(After(s, es))
    decreases es
  {
    if es != [] {
      InvStep(s, es[0]);
      InvRun(Apply(s, es[0]), es[1..]);
    }
  }

  lemma {:induction false} InitInv(s: State)
    requires Init(s)
    ensures Inv(s)
  {
    NoReaders(s.pcs);
  }

  // ----- the results -----

  /** Over every run of fewer than 2^31 threads the word is the writer bit with one writer and no
      reader, or the number of readers with no writer. */
  lemma {:induction false} WordEncodesHolders(s: State, es: seq<Event>)
    requires |s.pcs| < WRITER && Init(s) && IsRun(s, es)
    ensures var r := After(s, es);
            (r.word == WRITER && Readers(r.pcs) == 0
             && exists w :: 0 <= w < |r.pcs| && r.pcs[w] == Writer
                  && forall i :: 0 <= i < |r.pcs| && r.pcs[i] == Writer ==> i == w)
            || (r.word == Readers(r.pcs) && r.word < WRITER && Writer !in r.pcs)
  {
    InitInv(s);
    InvRun(s, es);
  }

  /** What each attempt finds, in every reachable state: exclusive access is granted exactly when
      nobody holds the lock, an upgrade exactly when the caller is its only holder, and a reader gets
      past its first look exactly when there is no writer. */
  lemma {:induction false} GrantedIff(s: State, es: seq<Event>, t: nat)
    requires |s.pcs| < WRITER && Init(s) && IsRun(s, es) && t < |s.pcs| && Enabled(After(s, es), Run(t))
    ensures var r := After(s, es); var pc := Apply(r, Run(t)).pcs[t];
            (r.pcs[t] in {LockCas, TryCas} ==> (pc == Writer <==> Unheld(r.pcs, |r.pcs|)))
            && (r.pcs[t] == Upgrading ==> (pc == Writer <==> Unheld(r.pcs, t)))
            && (r.pcs[t].SharedLoad? ==> (pc.SharedCas? <==> Writer !in r.pcs))
  {
    hide Encodes, IsRun, After, Unheld;
    InitInv(s);
    InvRun(s, es);
    var r := After(s, es);
    FreeIff(r);
    if r.pcs[t] == Upgrading { OnlyHolderIff(r, t); }
    NoWriterIff(r);
  }

  lemma {:induction false} FreeIff(r: State)
    requires Encodes(r)
    ensures r.word == 0 <==> Unheld(r.pcs, |r.pcs|)
  {
    NoReaders(r.pcs);
  }

  lemma {:induction false} OnlyHolderIff(r: State, t: nat)
    requires Encodes(r) && |r.pcs| < WRITER && t < |r.pcs| && Shares(r.pcs[t])
    ensures r.word == 1 <==> Unheld(r.pcs, t)
  {
    SomeReader(r.pcs, t);
    ReadersUpdate(r.pcs, t, Out);
    NoReaders(r.pcs[t := Out]);
  }

  lemma {:induction false} NoWriterIff(r: State)
    requires Encodes(r) && |r.pcs| < WRITER
    ensures r.word / WRITER % 2 == 0 <==> Writer !in r.pcs
  {
    WordBound(r);
  }

  /** A thread inside `tryLock` or `tryLockShared`. */
  predicate Trying(pc: Pc) {
    pc == TryCas || pc == SharedLoad(true) || (pc.SharedCas? && pc.try)
  }

  /** How many more operations a try makes at most. */
  function TryRank(pc: Pc): nat {
    if !Trying(pc) then 0 else if pc.SharedLoad? then 2 else 1
  }

  /** A try never spins: each of its operations, a spurious failure included, brings it closer to its
      end, which is the lock or the way out; the others leave it where it is. */
  lemma {:induction false} TryNeverSpins(s: State, e: Event, t: nat)
    requires Enabled(s, e) && t < |s.pcs| && Trying(s.pcs[t])
    ensures var pc := Apply(s, e).pcs[t];
            if e.t != t then pc == s.pcs[t]
            else TryRank(pc) < TryRank(s.pcs[t]) && (Trying(pc) || pc in {Out, Reader, Writer})
  {
    if e.t == t { assert e.Run? || e.WeakFail?; }
  }

  /** No thread other than `t` holds the lock. */
  ghost predicate Unheld(pcs: seq<Pc>, t: nat) {
    forall u :: 0 <= u < |pcs| && u != t ==> !Shares(pcs[u]) && pcs[u] != Writer
  }

  /** Two upgraders block each other for ever: in every continuation both keep spinning and no
      thread is ever granted exclusive access. */
  lemma {:induction false} TwoUpgradersStuck(s: State, t: nat, u: nat, es: seq<Event>)
    requires |s.pcs| < WRITER && Inv(s) && t < u < |s.pcs| && s.pcs[t] == Upgrading && s.pcs[u] == Upgrading
    requires IsRun(s, es)
    ensures var r := After(s, es); r.pcs[t] == Upgrading && r.pcs[u] == Upgrading && Writer !in r.pcs
    decreases es
  {
    SomeReader(s.pcs, t);
    if es != [] {
      InvStep(s, es[0]);
      TwoUpgradersStuck(Apply(s, es[0]), t, u, es[1..]);
    }
  }

  /** Readers leaving and threads going on, but no new call. */
  predicate Internal(es: seq<Event>) {
    forall i :: 0 <= i < |es| ==> es[i].UnlockShared? || es[i].Run?
  }

  /** A lone upgrader gets the lock once the other readers have left. */
  lemma {:induction false} LoneUpgraderAcquires(s: State, t: nat) returns (es: seq<Event>)
    requires |s.pcs| < WRITER && Inv(s) && t < |s.pcs| && s.pcs[t] == Upgrading
    requires forall u :: 0 <= u < |s.pcs| && u != t ==> s.pcs[u] != Upgrading
    ensures Internal(es) && IsRun(s, es) && After(s, es).pcs[t] == Writer
    decreases Readers(s.pcs)
  {
    SomeReader(s.pcs, t);
    WordBound(s);
    if u :| 0 <= u < |s.pcs| && s.pcs[u] == Reader {
      InvStep(s, UnlockShared(u));
      var s' := Apply(s, UnlockShared(u));
      ReadersUpdate(s.pcs, u, Out);
      es := LoneUpgraderAcquires(s', t);
      assert ([UnlockShared(u)] + es)[1..] == es;
      es := [UnlockShared(u)] + es;
    } else {
      ReadersUpdate(s.pcs, t, Out);
      NoReaders(s.pcs[t := Out]);
      es := [Run(t)];
      var s' := Apply(s, Run(t));
      assert es[1..] == [] && IsRun(s', []) && After(s', []) == s';
    }
  }

  /** From any reachable state with `t` upgrading, `t` can still be granted the lock if and only if
      no other thread is upgrading too. */
  lemma {:induction false} UpgradeGrantable(s: State, es: seq<Event>, t: nat)
    requires |s.pcs| < WRITER && Init(s) && IsRun(s, es) && t < |s.pcs| && After(s, es).pcs[t] == Upgrading
    ensures (exists fs :: IsRun(After(s, es), fs) && After(After(s, es), fs).pcs[t] == Writer)
       <==> (forall u :: 0 <= u < |s.pcs| && u != t ==> After(s, es).pcs[u] != Upgrading)
  {
    InitInv(s);
    InvRun(s, es);
    var r := After(s, es);
    if u :| 0 <= u < |s.pcs| && u != t && r.pcs[u] == Upgrading {
      forall fs | IsRun(r, fs) ensures After(r, fs).pcs[t] != Writer {
        if t < u { TwoUpgradersStuck(r, t, u, fs); } else { TwoUpgradersStuck(r, u, t, fs); }
      }
    } else {
      var fs := LoneUpgraderAcquires(r, t);
    }
  }

  // ----- what the calls come back with -----

  datatype Kind = Exclusive | Shared | Upgrade

  /** The call that does not give up. */
  function Start(k: Kind): Pc {
    match k case Exclusive => LockCas case Shared => SharedLoad(false) case Upgrade => Upgrading
  }

  /** What it is there to get. */
  function Goal(k: Kind): Pc {
    match k case Exclusive => Writer case Shared => Reader case Upgrade => Writer
  }

  /** Inside the call. */
  predicate Waiting(pc: Pc, k: Kind) {
    pc == Start(k) || (k == Shared && pc.SharedCas? && !pc.try)
  }

  /** At some point of the run the thread is at `pc`. */
  ghost predicate Visits(s: State, es: seq<Event>, t: nat, pc: Pc) {
    exists n :: VisitsAt(s, es, t, pc, n)
  }

  predicate VisitsAt(s: State, es: seq<Event>, t: nat, pc: Pc, n: int) {
    0 <= n <= |es| && IsRun(s, es[..n]) && t < |s.pcs| && After(s, es[..n]).pcs[t] == pc
  }

  lemma {:induction false} VisitsNow(s: State, es: seq<Event>, t: nat)
    requires t < |s.pcs|
    ensures Visits(s, es, t, s.pcs[t])
  {
    assert es[..0] == [] && VisitsAt(s, es, t, s.pcs[t], 0);
  }

  lemma {:induction false} VisitsLater(s: State, es: seq<Event>, t: nat, pc: Pc)
    requires es != [] && Enabled(s, es[0]) && Visits(Apply(s, es[0]), es[1..], t, pc)
    ensures Visits(s, es, t, pc)
  {
    var n :| VisitsAt(Apply(s, es[0]), es[1..], t, pc, n);
    assert es[..n + 1][1..] == es[1..][..n];
    assert VisitsAt(s, es, t, pc, n + 1);
  }

  lemma {:induction false} WaitsUntilGoal(s: State, es: seq<Event>, t: nat, k: Kind)
    requires t < |s.pcs| && Waiting(s.pcs[t], k) && IsRun(s, es) && !Waiting(After(s, es).pcs[t], k)
    ensures Visits(s, es, t, Goal(k))
    decreases es
  {
    hide Visits;
    var s' := Apply(s, es[0]);
    if s'.pcs[t] == Goal(k) {
      VisitsNow(s', es[1..], t);
    } else {
      WaitsUntilGoal(s', es[1..], t, k);
    }
    VisitsLater(s, es, t, Goal(k));
  }

  /** `lock`, `lockShared` and `relock` never come back empty-handed: in every run after the call, a
      thread that is no longer inside it has held the lock on the way, as a writer or as a reader. */
  lemma {:induction false} NeverEmptyHanded(s: State, es: seq<Event>, t: nat, k: Kind)
    requires Enabled(s, Call(t, Start(k))) && IsRun(Apply(s, Call(t, Start(k))), es)
    requires !Waiting(After(Apply(s, Call(t, Start(k))), es).pcs[t], k)
    ensures Visits(Apply(s, Call(t, Start(k))), es, t, Goal(k))
  {
    hide Visits;
    WaitsUntilGoal(Apply(s, Call(t, Start(k))), es, t, k);
  }

  /** A holder keeps what it holds until it lets go of it itself, and is then out. */
  lemma {:induction false} HeldUntilReleased(s: State, e: Event, t: nat)
    requires Enabled(s, e) && t < |s.pcs| && s.pcs[t] in {Reader, Writer}
    ensures var pc := Apply(s, e).pcs[t];
            pc == if e in {Unlock(t), UnlockShared(t)} then Out else if e == Call(t, Upgrading) then Upgrading else s.pcs[t]
  {
  }

  predicate Without(es: seq<Event>, t: nat) {
    forall i :: 0 <= i < |es| ==> es[i].t != t
  }

  lemma {:induction false} OthersLeaveAlone(s: State, es: seq<Event>, t: nat)
    requires IsRun(s, es) && Without(es, t) && t < |s.pcs|
    ensures After(s, es).pcs[t] == s.pcs[t]
    decreases es
  {
    if es != [] { OthersLeaveAlone(Apply(s, es[0]), es[1..], t); }
  }

  /** `tryLock`, whatever the others do in the meantime: its one operation, unless it fails for no
      reason, takes the lock exactly when nobody holds it, and else leaves. */
  lemma {:induction false} TryLockOutcome(s: State, es: seq<Event>, t: nat, fs: seq<Event>)
    requires |s.pcs| < WRITER && Init(s) && IsRun(s, es) && Enabled(After(s, es), Call(t, TryCas))
    requires IsRun(Apply(After(s, es), Call(t, TryCas)), fs) && Without(fs, t)
    ensures var r := After(Apply(After(s, es), Call(t, TryCas)), fs);
            Enabled(r, Run(t)) && Apply(r, Run(t)).pcs[t] == if Unheld(r.pcs, |r.pcs|) then Writer else Out
  {
    hide Encodes, Unheld;
    InitInv(s);
    InvRun(s, es);
    var r0 := After(s, es);
    InvStep(r0, Call(t, TryCas));
    var r1 := Apply(r0, Call(t, TryCas));
    InvRun(r1, fs);
    OthersLeaveAlone(r1, fs, t);
    FreeIff(After(r1, fs));
  }

  /** `tryLockShared` with nobody in between: its two operations make the caller a reader if there is
      no writer, and with one its first operation leaves. */
  lemma {:induction false} TrySharedOutcome(s: State, es: seq<Event>, t: nat)
    requires |s.pcs| < WRITER && Init(s) && IsRun(s, es) && Enabled(After(s, es), Call(t, SharedLoad(true)))
    ensures var r0 := After(s, es); var r1 := Apply(r0, Call(t, SharedLoad(true))); var r2 := Apply(r1, Run(t));
            if Writer in r0.pcs then r2.pcs[t] == Out
            else Enabled(r2, Run(t)) && Apply(r2, Run(t)).pcs[t] == Reader
  {
    hide Encodes;
    InitInv(s);
    InvRun(s, es);
    var r0 := After(s, es);
    NoWriterIff(r0);
  }

  // ----- every call can be granted -----

  lemma {:induction false} RunConcat(s: State, es: seq<Event>, fs: seq<Event>)
    requires IsRun(s, es) && IsRun(After(s, es), fs)
    ensures IsRun(s, es + fs) && After(s, es + fs) == After(After(s, es), fs)
    decreases es
  {
    if es == [] {
      assert es + fs == fs;
    } else {
      RunConcat(Apply(s, es[0]), es[1..], fs);
      assert (es + fs)[1..] == es[1..] + fs;
    }
  }

  lemma {:induction false} RunFirst(s: State, e: Event, es: seq<Event>)
    requires Enabled(s, e) && IsRun(Apply(s, e), es)
    ensures IsRun(s, [e] + es) && After(s, [e] + es) == After(Apply(s, e), es)
  {
    assert ([e] + es)[1..] == es;
  }

  /** With no writer at most three operations of its own make a reader. */
  lemma {:induction false} ReaderEnters(s: State, t: nat) returns (es: seq<Event>)
    requires s.word < WRITER && t < |s.pcs| && Waiting(s.pcs[t], Shared)
    ensures |es| <= 3 && (forall i :: 0 <= i < |es| ==> es[i] == Run(t)) && IsRun(s, es) && After(s, es).pcs[t] == Reader
    ensures s.pcs[t].SharedLoad? ==> |es| <= 2
    ensures s.pcs[t].SharedCas? && s.pcs[t].seen == s.word ==> |es| <= 1
    decreases if s.pcs[t].SharedLoad? then 1 else if s.pcs[t].seen == s.word then 0 else 2
  {
    var s' := Apply(s, Run(t));
    if s'.pcs[t] == Reader {
      es := [];
      assert IsRun(s', []) && After(s', []) == s';
    } else {
      es := ReaderEnters(s', t);
    }
    RunFirst(s, Run(t), es);
    es := [Run(t)] + es;
  }

  /** From every reachable state a thread inside `lockShared` can be granted the lock: once a present
      writer unlocks, its own operations do. */
  lemma {:induction false} SharedGrantable(s: State, es: seq<Event>, t: nat) returns (more: seq<Event>)
    requires |s.pcs| < WRITER && Init(s) && IsRun(s, es) && t < |s.pcs| && Waiting(After(s, es).pcs[t], Shared)
    ensures forall i :: 0 <= i < |more| ==> more[i] == Run(t) || (i == 0 && more[0].Unlock?)
    ensures IsRun(After(s, es), more) && After(After(s, es), more).pcs[t] == Reader
  {
    hide Encodes;
    InitInv(s);
    InvRun(s, es);
    var r := After(s, es);
    WordBound(r);
    if r.word < WRITER {
      more := ReaderEnters(r, t);
    } else {
      var w := TheWriter(r);
      var r' := Apply(r, Unlock(w));
      more := ReaderEnters(r', t);
      RunFirst(r, Unlock(w), more);
      more := [Unlock(w)] + more;
    }
  }

  lemma {:induction false} TheWriter(s: State) returns (w: nat)
    requires Encodes(s) && s.word == WRITER
    ensures w < |s.pcs| && s.pcs[w] == Writer
  {
    w :| 0 <= w < |s.pcs| && s.pcs[w] == Writer;
  }

  /** Holders leaving and threads going on, but no new call. */
  predicate NoCalls(es: seq<Event>) {
    forall i :: 0 <= i < |es| ==> !es[i].Call?
  }

  /** At most one thread is upgrading. */
  ghost predicate LoneUpgrader(pcs: seq<Pc>) {
    forall u, v :: 0 <= u < |pcs| && 0 <= v < |pcs| && pcs[u] == Upgrading && pcs[v] == Upgrading ==> u == v
  }

  /** All holders leave: the writer, or an upgrader after it has become one, and the readers. */
  lemma {:induction false} EverybodyLeaves(s: State, t: nat) returns (es: seq<Event>)
    requires |s.pcs| < WRITER && Inv(s) && LoneUpgrader(s.pcs) && t < |s.pcs| && s.pcs[t] == LockCas
    ensures NoCalls(es) && IsRun(s, es) && After(s, es).pcs[t] == Writer
    decreases Readers(s.pcs), s.word
  {
    hide Encodes;
    var e := LeaveStep(s, t);
    var s' := Apply(s, e);
    InvStep(s, e);
    if s'.pcs[t] == Writer {
      es := [];
      assert IsRun(s', []) && After(s', []) == s';
    } else {
      es := EverybodyLeaves(s', t);
    }
    RunFirst(s, e, es);
    es := [e] + es;
  }

  /** The next one to leave, or the waiting thread's own operation when nobody is left. */
  lemma {:induction false} LeaveStep(s: State, t: nat) returns (e: Event)
    requires |s.pcs| < WRITER && Inv(s) && LoneUpgrader(s.pcs) && t < |s.pcs| && s.pcs[t] == LockCas
    ensures Enabled(s, e) && !e.Call? && LoneUpgrader(Apply(s, e).pcs)
    ensures var s' := Apply(s, e);
            s'.pcs[t] == Writer
            || (s'.pcs[t] == LockCas
                && (Readers(s'.pcs) < Readers(s.pcs) || (Readers(s'.pcs) == Readers(s.pcs) && s'.word < s.word)))
  {
    hide Encodes, Readers;
    if u :| 0 <= u < |s.pcs| && s.pcs[u] == Reader {
      e := UnlockShared(u);
      ReadersUpdate(s.pcs, u, Out);
    } else if u :| 0 <= u < |s.pcs| && s.pcs[u] == Upgrading {
      e := Run(u);
      OnlyHolder(s, u);
      ReadersUpdate(s.pcs, u, Writer);
    } else if s.word == WRITER {
      var w := TheWriter(s);
      e := Unlock(w);
      ReadersUpdate(s.pcs, w, Out);
    } else {
      NobodyLeft(s);
      e := Run(t);
    }
  }

  lemma {:induction false} OnlyHolder(s: State, u: nat)
    requires |s.pcs| < WRITER && Encodes(s) && u < |s.pcs| && s.pcs[u] == Upgrading
    requires forall v :: 0 <= v < |s.pcs| && v != u ==> !Shares(s.pcs[v])
    ensures s.word == 1
  {
    SomeReader(s.pcs, u);
    ReadersUpdate(s.pcs, u, Out);
    NoReaders(s.pcs[u := Out]);
  }

  lemma {:induction false} NobodyLeft(s: State)
    requires Encodes(s) && s.word != WRITER && forall v :: 0 <= v < |s.pcs| ==> !Shares(s.pcs[v])
    ensures s.word == 0
  {
    NoReaders(s.pcs);
  }

  /** From every reachable state a thread inside `lock` can still be granted the lock, once all holders
      have left, if and only if no two threads are upgrading. */
  lemma {:induction false} LockGrantable(s: State, es: seq<Event>, t: nat)
    requires |s.pcs| < WRITER && Init(s) && IsRun(s, es) && t < |s.pcs| && After(s, es).pcs[t] == LockCas
    ensures (exists fs :: IsRun(After(s, es), fs) && After(After(s, es), fs).pcs[t] == Writer) <==> LoneUpgrader(After(s, es).pcs)
  {
    hide Encodes;
    InitInv(s);
    InvRun(s, es);
    var r := After(s, es);
    if LoneUpgrader(r.pcs) {
      var fs := EverybodyLeaves(r, t);
    } else {
      var u, v :| 0 <= u < |r.pcs| && 0 <= v < |r.pcs| && r.pcs[u] == Upgrading && r.pcs[v] == Upgrading && u != v;
      forall fs | IsRun(r, fs) ensures After(r, fs).pcs[t] != Writer {
        if u < v { TwoUpgradersStuck(r, u, v, fs); } else { TwoUpgradersStuck(r, v, u, fs); }
      }
    }
  }

  // ----- why fewer than 2^31 threads -----

  /** The first `n` threads come in as readers, one after the other. */
  lemma {:induction false} ReadersEnter(s: State, n: nat) returns (es: seq<Event>)
    requires Init(s) && n <= |s.pcs| && n <= WRITER
    ensures IsRun(s, es) && After(s, es).word == n
    ensures forall i :: 0 <= i < |s.pcs| ==> After(s, es).pcs[i] == if i < n then Reader else Out
  {
    es := [];
    if n > 0 {
      es := ReadersEnter(s, n - 1);
      var t := n - 1;
      RunThen(s, es, Call(t, SharedLoad(false)));
      es := es + [Call(t, SharedLoad(false))];
      RunThen(s, es, Run(t));
      es := es + [Run(t)];
      RunThen(s, es, Run(t));
      es := es + [Run(t)];
    }
  }

  lemma {:induction false} RunThen(s: State, es: seq<Event>, e: Event)
    requires IsRun(s, es) && Enabled(After(s, es), e)
    ensures IsRun(s, es + [e]) && After(s, es + [e]) == Apply(After(s, es), e)
    decreases es
  {
    if es == [] {
      assert [e][1..] == [] && es + [e] == [e];
    } else {
      RunThen(Apply(s, es[0]), es[1..], e);
      assert (es + [e])[1..] == es[1..] + [e];
    }
  }

  /** The bound is tight: with 2^31 threads or more the count of readers reaches the writer bit. */
  lemma {:induction false} BoundIsTight(s: State) returns (es: seq<Event>)
    requires Init(s) && |s.pcs| >= WRITER
    ensures IsRun(s, es) && After(s, es).word == WRITER && Writer !in After(s, es).pcs
    ensures Readers(After(s, es).pcs) != 0
  {
    es := ReadersEnter(s, WRITER);
    var r := After(s, es);
    assert Shares(r.pcs[0]);
    NoReaders(r.pcs);
  }
}
