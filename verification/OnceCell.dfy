/**
 The once cell: any number of threads race to run one closure, the losers sleep until it is done.
 Steps, kernel and word are modelled as for the futex mutex. Calls may be repeated.
 */
module OnceCell {

  datatype Pc =
    | Idle        // no call in progress
    | FastLoad    // about to load the state for the fast path
    | Cas         // about to compare_exchange(0, 1)
    | CallF       // won the race, about to enter the closure
    | InF         // inside the closure
    | Store       // closure returned, about to store(2)
    | WakeAll     // about to wake every waiter
    | LoopLoad    // lost the race, about to load the state
    | Wait        // about to call futex_wait(1)
    | Asleep      // asleep in the kernel
    | Returned    // call_once has returned

  /** `started` and `finished` count the closure's entries and returns. */
  datatype State = State(word: int, pcs: seq<Pc>, started: nat, finished: nat)

  datatype Event = Call(t: nat) | Run(t: nat) | Spurious(t: nat)

  predicate Enabled(s: State, e: Event) {
    e.t < |s.pcs| &&
    match e
    case Call(t) => s.pcs[t] in {Idle, Returned}
    case Run(t) => s.pcs[t] !in {Idle, Returned, Asleep}
    case Spurious(t) => s.pcs[t] == Asleep
  }

  /** Every sleeper goes back to its loop. */
  function Resume(pcs: seq<Pc>): (r: seq<Pc>)
    ensures |r| == |pcs|
    ensures forall i :: 0 <= i < |pcs| ==> r[i] == if pcs[i] == Asleep then LoopLoad else pcs[i]
  {
    seq(|pcs|, i requires 0 <= i < |pcs| => if pcs[i] == Asleep then LoopLoad else pcs[i])
  }

  function Apply(s: State, e: Event): (s': State)
    requires Enabled(s, e)
    ensures |s'.pcs| == |s.pcs|
  {
    var t := e.t;
    match e
    case Call(_) => s.(pcs := s.pcs[t := FastLoad])
    case Spurious(_) => s.(pcs := s.pcs[t := LoopLoad])
    case Run(_) =>
      match s.pcs[t]
      case FastLoad => s.(pcs := s.pcs[t := if s.word == 2 then Returned else Cas])
      case Cas => if s.word == 0 then s.(word := 1, pcs := s.pcs[t := CallF]) else s.(pcs := s.pcs[t := LoopLoad])
      case CallF => s.(pcs := s.pcs[t := InF], started := s.started + 1)
      case InF => s.(pcs := s.pcs[t := Store], finished := s.finished + 1)
      case Store => s.(word := 2, pcs := s.pcs[t := WakeAll])
      case WakeAll => s.(pcs := Resume(s.pcs)[t := Returned])
      case LoopLoad => s.(pcs := s.pcs[t := if s.word != 2 then Wait else Returned])
      case Wait => s.(pcs := s.pcs[t := if s.word == 1 then Asleep else LoopLoad])
      case _ => s
  }

  predicate IsRun(s: State, es: seq<Event>)
    decreases es
  {
    es == [] || (Enabled(s, es[0]) && IsRun(Apply(s, es[0]), es[1..]))
  }

  function After(s: State, es: seq<Event>): (s': State)
    requires IsRun(s, es)
    ensures |s'.pcs| == |s.pcs|
    decreases es
  {
    if es == [] then s else After(Apply(s, es[0]), es[1..])
  }

  predicate Init(s: State) {
    s.word == 0 && s.started == 0 && s.finished == 0 && forall i :: 0 <= i < |s.pcs| ==> s.pcs[i] == Idle
  }

  predicate Running(pc: Pc) {
    pc in {CallF, InF, Store}
  }

  /** The one thread that won the race is where the counters say it is. */
  ghost predicate RunnerInv(s: State) {
    0 <= s.word <= 2
    && (forall i, j :: 0 <= i < |s.pcs| && 0 <= j < |s.pcs| && Running(s.pcs[i]) && Running(s.pcs[j]) ==> i == j)
    && (s.word == 1 <==> exists i :: 0 <= i < |s.pcs| && Running(s.pcs[i]))
    && (s.word == 0 ==> s.started == 0 && s.finished == 0)
    && (s.word == 2 ==> s.started == 1 && s.finished == 1)
    && (forall i :: 0 <= i < |s.pcs| && Running(s.pcs[i]) ==>
          s.started == (if s.pcs[i] == CallF then 0 else 1) && s.finished == (if s.pcs[i] == Store then 1 else 0))
  }

  ghost predicate WaiterInv(s: State) {
    (forall i :: 0 <= i < |s.pcs| && s.pcs[i] in {Returned, WakeAll} ==> s.word == 2)
    && (forall i :: 0 <= i < |s.pcs| && s.pcs[i] in {LoopLoad, Wait, Asleep} ==> s.word != 0)
    && (Asleep in s.pcs && s.word == 2 ==> WakeAll in s.pcs)
  }

  ghost predicate Inv(s: State) {
    RunnerInv(s) && WaiterInv(s)
  }

  /** A step that leaves word, counters and the running threads alone. */
  lemma Bystander(s: State, s': State)
    requires RunnerInv(s) && |s'.pcs| == |s.pcs|
    requires s'.word == s.word && s'.started == s.started && s'.finished == s.finished
    requires forall i :: 0 <= i < |s.pcs| && (Running(s.pcs[i]) || Running(s'.pcs[i])) ==> s'.pcs[i] == s.pcs[i]
    ensures RunnerInv(s')
  {
    if s.word == 1 {
      var r :| 0 <= r < |s.pcs| && Running(s.pcs[r]);
      assert Running(s'.pcs[r]);
    }
  }

  lemma RunnerStep(s: State, e: Event)
    requires RunnerInv(s) && Enabled(s, e)
    ensures RunnerInv(Apply(s, e))
  {
    var s' := Apply(s, e);
    if e.Run? && (Running(s.pcs[e.t]) || (s.pcs[e.t] == Cas && s.word == 0)) {
      assert forall i :: 0 <= i < |s.pcs| && i != e.t ==> s'.pcs[i] == s.pcs[i];
      assert s'.word == 1 ==> Running(s'.pcs[e.t]);
    } else {
      Bystander(s, s');
    }
  }

  /** A step that moves one thread, which is not the one about to wake everybody. */
  lemma {:induction false} MoveOne(s: State, t: nat, pc: Pc, word: int)
    requires WaiterInv(s) && t < |s.pcs| && s.pcs[t] != WakeAll
    requires word == s.word || (s.word == 0 && word == 1) || (s.word == 1 && word == 2 && pc == WakeAll)
    requires (pc in {Returned, WakeAll} ==> word == 2) && (pc in {LoopLoad, Wait} ==> word != 0) && (pc == Asleep ==> word == 1)
    ensures WaiterInv(s.(word := word, pcs := s.pcs[t := pc]))
  {
    var s' := s.(word := word, pcs := s.pcs[t := pc]);
    assert s'.pcs[t] == pc;
    if Asleep in s'.pcs && s'.word == 2 && s.word == 2 {
      var i :| 0 <= i < |s'.pcs| && s'.pcs[i] == Asleep;
      assert s.pcs[i] == Asleep;
      var w :| 0 <= w < |s.pcs| && s.pcs[w] == WakeAll;
      assert s'.pcs[w] == WakeAll;
    }
  }

  /** The wake-all leaves nobody asleep. */
  lemma {:induction false} WakeEverybody(s: State, t: nat)
    requires WaiterInv(s) && t < |s.pcs| && s.pcs[t] == WakeAll
    ensures WaiterInv(s.(pcs := Resume(s.pcs)[t := Returned]))
  {
    var pcs := Resume(s.pcs)[t := Returned];
    forall i | 0 <= i < |pcs| ensures pcs[i] != Asleep { }
  }

  lemma {:induction false} WaiterStep(s: State, e: Event)
    requires Inv(s) && Enabled(s, e)
    ensures WaiterInv(Apply(s, e))
  {
    hide WaiterInv;
    LoopWord(s, e.t);
    var t, s' := e.t, Apply(s, e);
    if e.Run? && s.pcs[t] == WakeAll {
      WakeEverybody(s, t);
    } else {
      StoreAtOne(s, e);
      MoveOne(s, t, s'.pcs[t], s'.word);
      SameWaiters(s', s.(word := s'.word, pcs := s.pcs[t := s'.pcs[t]]));
    }
  }

  /** A caller that lost the race has seen the word change. */
  lemma {:induction false} LoopWord(s: State, t: nat)
    requires WaiterInv(s) && t < |s.pcs|
    ensures s.pcs[t] in {LoopLoad, Wait, Asleep} ==> s.word != 0
    ensures s.pcs[t] in {Returned, WakeAll} ==> s.word == 2
  {
  }

  lemma {:induction false} StoreAtOne(s: State, e: Event)
    requires RunnerInv(s) && Enabled(s, e)
    ensures e.Run? && Running(s.pcs[e.t]) ==> s.word == 1
  {
  }

  /** The counters do not matter to the waiters. */
  lemma {:induction false} SameWaiters(s: State, s': State)
    requires s.word == s'.word && s.pcs == s'.pcs && WaiterInv(s')
    ensures WaiterInv(s)
  {
  }

  lemma {:induction false} InvRun(s: State, es: seq<Event>)
    requires Inv(s) && IsRun(s, es)
    ensures Inv(After(s, es))
    decreases es
  {
    if es != [] {
      RunnerStep(s, es[0]);
      WaiterStep(s, es[0]);
      InvRun(Apply(s, es[0]), es[1..]);
    }
  }

  /** Over every run the closure is entered at most once, and no call has returned unless the
      closure has been entered and has returned exactly once. */
  lemma {:induction false} RunsOnce(s: State, es: seq<Event>)
    requires Init(s) && IsRun(s, es)
    ensures var r := After(s, es);
            r.finished <= r.started <= 1 && (Returned in r.pcs ==> r.started == 1 && r.finished == 1)
  {
    InvRun(s, es);
    var r := After(s, es);
    if r.word == 1 {
      var i :| 0 <= i < |r.pcs| && Running(r.pcs[i]);
    }
  }

  /** A caller that looks at the word returns exactly when the closure has finished and its end has
      been published: at once if that was so on entry, and otherwise from its loop. */
  lemma {:induction false} ReturnsIffDone(s: State, es: seq<Event>, t: nat)
    requires Init(s) && IsRun(s, es) && t < |s.pcs| && After(s, es).pcs[t] in {FastLoad, LoopLoad}
    ensures var r := After(s, es);
            Apply(r, Run(t)).pcs[t] == Returned <==> r.finished == 1 && Store !in r.pcs
  {
    assert Inv(s);
    InvRun(s, es);
    var r := After(s, es);
    if r.word == 1 {
      var i :| 0 <= i < |r.pcs| && Running(r.pcs[i]);
      assert r.pcs[i] in r.pcs;
    }
  }

  /** No lost wake-up: whenever a caller sleeps, the runner has not stored 2 yet or its wake-all is
      still to come. */
  lemma {:induction false} NoLostWakeup(s: State, es: seq<Event>)
    requires Init(s) && IsRun(s, es)
    ensures var r := After(s, es);
            Asleep in r.pcs ==> CallF in r.pcs || InF in r.pcs || Store in r.pcs || WakeAll in r.pcs
  {
    InvRun(s, es);
    var r := After(s, es);
    if Asleep in r.pcs && r.word == 1 {
      var i :| 0 <= i < |r.pcs| && Running(r.pcs[i]);
      assert r.pcs[i] in r.pcs;
    }
  }

  // ----- every call returns -----

  predicate Inside(pc: Pc) {
    pc !in {Idle, Returned}
  }

  /** Steps of threads already inside: no new call and no spurious return. */
  predicate Steps(es: seq<Event>) {
    forall i :: 0 <= i < |es| ==> es[i].Run?
  }

  lemma {:induction false} RunConcat(s: State, es: seq<Event>, fs: seq<Event>)
    requires IsRun(s, es) && IsRun(After(s, es), fs)
    ensures IsRun(s, es + fs) && After(s, es + fs) == After(After(s, es), fs)
    decreases es
  {
    if es == [] {
      assert es + fs == fs;
    } else {
      RunConcat(Apply(s, es[0]), es[1..], fs);
      assert (es + fs)[1..] == es[1..] + fs;
    }
  }

  lemma {:induction false} RunFirst(s: State, t: nat, es: seq<Event>)
    requires Enabled(s, Run(t)) && IsRun(Apply(s, Run(t)), es) && Steps(es)
    ensures IsRun(s, [Run(t)] + es) && Steps([Run(t)] + es) && After(s, [Run(t)] + es) == After(Apply(s, Run(t)), es)
  {
    assert ([Run(t)] + es)[1..] == es;
  }

  /** How many more steps the runner takes. */
  function StepsToWake(pc: Pc): nat
    requires Running(pc) || pc == WakeAll
  {
    match pc case CallF => 4 case InF => 3 case Store => 2 case _ => 1
  }

  /** The runner finishes on its own: the end is published, its call is over and nobody sleeps. */
  lemma {:induction false} RunnerFinishes(s: State, r: nat) returns (es: seq<Event>)
    requires r < |s.pcs| && (Running(s.pcs[r]) || (s.pcs[r] == WakeAll && s.word == 2))
    ensures Steps(es) && IsRun(s, es)
    ensures var s' := After(s, es); s'.word == 2 && s'.pcs == Resume(s.pcs)[r := Returned]
    decreases StepsToWake(s.pcs[r])
  {
    var s' := Apply(s, Run(r));
    if s.pcs[r] == WakeAll {
      es := [];
      assert IsRun(s', []) && After(s', []) == s';
    } else {
      es := RunnerFinishes(s', r);
      assert Resume(s'.pcs)[r := Returned] == Resume(s.pcs)[r := Returned];
    }
    RunFirst(s, r, es);
    es := [Run(r)] + es;
  }

  function StepsToReturn(pc: Pc): nat {
    match pc case Cas => 3 case Wait => 2 case _ => 1
  }

  /** Once the end is published every caller that is awake returns on its own. */
  lemma {:induction false} PublishedReturns(s: State, w: nat) returns (es: seq<Event>)
    requires s.word == 2 && w < |s.pcs| && s.pcs[w] in {FastLoad, Cas, LoopLoad, Wait, WakeAll}
    ensures Steps(es) && IsRun(s, es) && After(s, es).pcs[w] == Returned
    decreases StepsToReturn(s.pcs[w])
  {
    var s' := Apply(s, Run(w));
    if s'.pcs[w] == Returned {
      es := [];
      assert IsRun(s', []) && After(s', []) == s';
    } else {
      es := PublishedReturns(s', w);
    }
    RunFirst(s, w, es);
    es := [Run(w)] + es;
  }

  /** With the runner's help. */
  lemma {:induction false} ReturnsAfter(s: State, r: nat, w: nat) returns (es: seq<Event>)
    requires r < |s.pcs| && (Running(s.pcs[r]) || (s.pcs[r] == WakeAll && s.word == 2))
    requires w < |s.pcs| && (w == r || s.pcs[w] in {FastLoad, Cas, LoopLoad, Wait, WakeAll, Asleep})
    ensures Steps(es) && IsRun(s, es) && After(s, es).pcs[w] == Returned
  {
    es := RunnerFinishes(s, r);
    var s' := After(s, es);
    if w != r {
      assert s'.pcs[w] == if s.pcs[w] == Asleep then LoopLoad else s.pcs[w];
      var fs := PublishedReturns(s', w);
      RunConcat(s, es, fs);
      es := es + fs;
    }
  }

  /** A caller that finds nobody ahead of it wins the race. */
  lemma {:induction false} FirstCaller(s: State, w: nat) returns (es: seq<Event>)
    requires s.word == 0 && w < |s.pcs| && s.pcs[w] in {FastLoad, Cas}
    ensures Steps(es) && IsRun(s, es) && After(s, es).pcs[w] == Returned
    decreases s.pcs[w] == FastLoad
  {
    var s' := Apply(s, Run(w));
    if s.pcs[w] == FastLoad { es := FirstCaller(s', w); } else { es := ReturnsAfter(s', w, w); }
    RunFirst(s, w, es);
    es := [Run(w)] + es;
  }

  /** From every reachable state each call in progress can still return, by steps of threads already
      inside and no spurious return; the closure has then been entered and left exactly once. */
  lemma {:induction false} NoDeadlock(s: State, es: seq<Event>, w: nat) returns (more: seq<Event>)
    requires Init(s) && IsRun(s, es) && w < |s.pcs| && Inside(After(s, es).pcs[w])
    ensures Steps(more) && IsRun(After(s, es), more)
    ensures var r := After(After(s, es), more); r.pcs[w] == Returned && r.started == 1 && r.finished == 1
  {
    InvRun(s, es);
    var c := After(s, es);
    more := CanReturn(c, w);
    InvRun(c, more);
  }

  lemma {:induction false} CanReturn(c: State, w: nat) returns (more: seq<Event>)
    requires Inv(c) && w < |c.pcs| && Inside(c.pcs[w])
    ensures Steps(more) && IsRun(c, more) && After(c, more).pcs[w] == Returned
  {
    hide RunnerInv, WaiterInv;
    LoopWord(c, w);
    RunnerWord(c, w);
    Positions(c.pcs[w]);
    if c.word == 0 {
      more := FirstCaller(c, w);
    } else if c.word == 1 {
      var r := TheRunner(c, w);
      more := ReturnsAfter(c, r, w);
    } else if c.pcs[w] == Asleep {
      var r := TheWaker(c, w);
      more := ReturnsAfter(c, r, w);
    } else {
      more := PublishedReturns(c, w);
    }
  }

  lemma {:induction false} Positions(pc: Pc)
    requires Inside(pc)
    ensures Running(pc) || pc in {FastLoad, Cas, LoopLoad, Wait, WakeAll, Asleep}
  {
    match pc
    case Idle =>
    case Returned =>
    case _ =>
  }

  lemma {:induction false} RunnerWord(c: State, w: nat)
    requires RunnerInv(c) && w < |c.pcs|
    ensures 0 <= c.word <= 2 && (Running(c.pcs[w]) ==> c.word == 1)
  {
  }

  lemma {:induction false} TheRunner(c: State, w: nat) returns (r: nat)
    requires RunnerInv(c) && c.word == 1 && w < |c.pcs|
    ensures r < |c.pcs| && Running(c.pcs[r]) && (Running(c.pcs[w]) ==> r == w)
  {
    r :| 0 <= r < |c.pcs| && Running(c.pcs[r]);
  }

  lemma {:induction false} TheWaker(c: State, w: nat) returns (r: nat)
    requires WaiterInv(c) && c.word == 2 && w < |c.pcs| && c.pcs[w] == Asleep
    ensures r < |c.pcs| && c.pcs[r] == WakeAll
  {
    assert c.pcs[w] in c.pcs;
    r :| 0 <= r < |c.pcs| && c.pcs[r] == WakeAll;
  }

  /** A call ends only by returning: in every run after it the caller is inside or has returned. */
  lemma {:induction false} CallEndsReturned(s: State, t: nat, es: seq<Event>)
    requires Enabled(s, Call(t)) && IsRun(Apply(s, Call(t)), es)
    ensures var pc := After(Apply(s, Call(t)), es).pcs[t]; Inside(pc) || pc == Returned
  {
    NeverIdle(Apply(s, Call(t)), t, es);
  }

  lemma {:induction false} NeverIdle(s: State, t: nat, es: seq<Event>)
    requires t < |s.pcs| && s.pcs[t] != Idle && IsRun(s, es)
    ensures After(s, es).pcs[t] != Idle
    decreases es
  {
    if es != [] { NeverIdle(Apply(s, es[0]), t, es[1..]); }
  }

  /** A caller that the kernel resumes unasked looks at the word again; nothing else has changed. */
  lemma {:induction false} SpuriousReturn(s: State, t: nat)
    requires Enabled(s, Spurious(t))
    ensures var r := Apply(s, Spurious(t));
            r == s.(pcs := s.pcs[t := r.pcs[t]]) && Enabled(r, Run(t))
            && (Apply(r, Run(t)).pcs[t] == Returned <==> s.word == 2)
  {
    var r := Apply(s, Spurious(t));
    assert r.pcs[t] == LoopLoad;
  }

  function StepsToSleep(pc: Pc): nat {
    match pc case FastLoad => 4 case Cas => 3 case LoopLoad => 2 case Wait => 1 case _ => 0
  }

  /** While the closure runs a caller that lost the race does not spin: at most four steps of its own
      put it to sleep. */
  lemma {:induction false} LoserSleeps(s: State, w: nat) returns (es: seq<Event>)
    requires s.word == 1 && w < |s.pcs| && s.pcs[w] in {FastLoad, Cas, LoopLoad, Wait, Asleep}
    ensures |es| <= 4 && (forall i :: 0 <= i < |es| ==> es[i] == Run(w))
    ensures |es| == StepsToSleep(s.pcs[w]) && IsRun(s, es) && After(s, es).pcs[w] == Asleep
    decreases StepsToSleep(s.pcs[w])
  {
    if s.pcs[w] == Asleep {
      es := [];
    } else {
      es := LoserSleeps(Apply(s, Run(w)), w);
      RunFirst(s, w, es);
      es := [Run(w)] + es;
    }
  }
}
