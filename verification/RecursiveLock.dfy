// RecursiveLockType (util/recursivelock.h) over Lock (spinlock.h): any number
// of threads, each read or write of a shared variable a step of its own.

module RecursiveLock {

  // Where a thread stands; the next step does what the comment says.
  datatype Pc =
    | Idle                     // calls lock or unlock, or does something else
    | LockTest                 // reads tid
    | AgainRead                // reads count, to add one
    | AgainWrite(c: int)       // writes c + 1
    | BaseTest                 // reads anyThreadCreated
    | BasePlain                // stores LOCKED
    | BaseExchange             // exchanges LOCKED into the mutex
    | Contended                // the same, after having lost once
    | Spin                     // reads the mutex until it is not LOCKED
    | SetTid                   // writes its id to tid
    | FirstRead                // reads count, to add one
    | FirstWrite(c: int)       // writes c + 1
    | UnlockTest               // reads tid
    | DropRead                 // reads count, to subtract one
    | DropWrite(c: int)        // writes c - 1
    | DropTest                 // reads count, compares it with 0
    | ClearTid                 // writes -1 to tid
    | Release                  // stores UNLOCKED
    | Aborted                  // unlocked without holding the lock

  // depth: how many calls to lock have taken effect that no unlock has undone.
  datatype Thread = Thread(pc: Pc, depth: nat)

  // Thread 0 is the main thread, the only one until anyThreadCreated is set.
  datatype State = State(tid: int, count: int, locked: bool, created: bool, threads: map<nat, Thread>) {
    // The lock is in nobody's hands.
    predicate Free() {
      !locked && tid == -1 && count == 0
    }
  }

  datatype Call = CallLock | CallUnlock | CallSpawn

  ghost predicate Init(s: State) {
    && s.tid == -1 && s.count == 0 && !s.locked && !s.created && 0 in s.threads
    && forall t :: t in s.threads ==> s.threads[t] == Thread(Idle, 0)
  }

  function At(s: State, t: nat, pc: Pc): State
    requires t in s.threads
  {
    s.(threads := s.threads[t := s.threads[t].(pc := pc)])
  }

  function AtDepth(s: State, t: nat, pc: Pc, depth: nat): State {
    s.(threads := s.threads[t := Thread(pc, depth)])
  }

  predicate Enabled(s: State, t: nat) {
    t in s.threads && (t == 0 || s.created) && s.threads[t].pc != Aborted
  }

  // One step of thread t; `call` is what an idle thread does.
  function Step(s: State, t: nat, call: Call): State
    requires Enabled(s, t)
  {
    var th := s.threads[t];
    match th.pc
    case Idle =>
      (match call
       case CallLock => At(s, t, LockTest)
       case CallUnlock => At(s, t, UnlockTest)
       case CallSpawn => s.(created := true))
    case LockTest => At(s, t, if s.tid == t then AgainRead else BaseTest)
    case AgainRead => At(s, t, AgainWrite(s.count))
    case AgainWrite(c) => AtDepth(s.(count := c + 1), t, Idle, th.depth + 1)
    case BaseTest => At(s, t, if s.created then BaseExchange else BasePlain)
    case BasePlain => At(s.(locked := true), t, SetTid)
    case BaseExchange => At(s.(locked := true), t, if s.locked then Contended else SetTid)
    case Contended => At(s.(locked := true), t, if s.locked then Spin else SetTid)
    case Spin => At(s, t, if s.locked then Spin else Contended)
    case SetTid => At(s.(tid := t), t, FirstRead)
    case FirstRead => At(s, t, FirstWrite(s.count))
    case FirstWrite(c) => AtDepth(s.(count := c + 1), t, Idle, th.depth + 1)
    case UnlockTest => At(s, t, if s.tid == t then DropRead else Aborted)
    case DropRead => At(s, t, DropWrite(s.count))
    case DropWrite(c) => AtDepth(s.(count := c - 1), t, DropTest, if th.depth == 0 then 0 else th.depth - 1)
    case DropTest => At(s, t, if s.count == 0 then ClearTid else Idle)
    case ClearTid => At(s.(tid := -1), t, Release)
    case Release => At(s.(locked := false), t, Idle)
    case Aborted => s
  }

  // Does a thread at this point own the mutex word?
  predicate Owns(th: Thread) {
    match th.pc
    case Idle => th.depth > 0
    case LockTest => th.depth > 0
    case UnlockTest => th.depth > 0
    case BaseTest => false
    case BasePlain => false
    case BaseExchange => false
    case Contended => false
    case Spin => false
    case Aborted => false
    case _ => true
  }

  // What the shared variables hold while a thread at this point owns the lock.
  predicate OwnerOk(s: State, t: nat, th: Thread) {
    match th.pc
    case SetTid => s.tid == -1 && s.count == 0 && th.depth == 0
    case FirstRead => s.tid == t && s.count == 0 && th.depth == 0
    case FirstWrite(c) => s.tid == t && s.count == 0 && th.depth == 0 && c == 0
    case AgainWrite(c) => s.tid == t && s.count == th.depth > 0 && c == s.count
    case DropWrite(c) => s.tid == t && s.count == th.depth > 0 && c == s.count
    case DropTest => s.tid == t && s.count == th.depth
    case ClearTid => s.tid == t && s.count == 0 && th.depth == 0
    case Release => s.tid == -1 && s.count == 0 && th.depth == 0
    case _ => s.tid == t && s.count == th.depth > 0
  }

  // An owner finds what it left; any other thread has nothing to undo.
  ghost predicate WordOk(s: State, t: nat)
    requires t in s.threads
  {
    var th := s.threads[t];
    if Owns(th) then s.locked && OwnerOk(s, t, th) else th.depth == 0 && s.tid != t
  }

  ghost predicate ThreadOk(s: State, t: nat)
    requires t in s.threads
  {
    var th := s.threads[t];
    && WordOk(s, t)
    && (th.pc == BasePlain ==> t == 0 && !s.created)
    && (th.pc == BaseExchange || th.pc == Contended || th.pc == Spin ==> s.created)
    && (t != 0 && !s.created ==> th == Thread(Idle, 0))
  }

  // Nobody owns the lock (o == -1), or thread o alone does.
  ghost predicate OwnedBy(s: State, o: int) {
    && (forall t :: t in s.threads ==> (Owns(s.threads[t]) <==> t == o))
    && (if o == -1 then s.Free() else s.locked && 0 <= o && o in s.threads)
  }

  ghost predicate Inv(s: State) {
    && 0 in s.threads
    && (forall t :: t in s.threads ==> ThreadOk(s, t))
    && exists o :: OwnedBy(s, o)
  }

  // Who owns the lock after a step of thread t.
  function NextOwner(s: State, t: nat, call: Call, o: int): int
    requires Enabled(s, t)
  {
    var owns := Owns(Step(s, t, call).threads[t]);
    if owns then t else if o == t then -1 else o
  }

  // What thread t needs to know of the owner.
  ghost predicate Holds(s: State, t: nat, o: int)
    requires t in s.threads
  {
    && ThreadOk(s, t) && (Owns(s.threads[t]) <==> t == o)
    && (if o == -1 then s.Free() else s.locked && (s.created || o == 0))
  }

  lemma OwnerHolds(s: State, t: nat, o: int)
    requires (forall u :: u in s.threads ==> ThreadOk(s, u)) && OwnedBy(s, o) && t in s.threads
    ensures Holds(s, t, o)
  {
    assert o != -1 ==> ThreadOk(s, o);
  }

  // What thread t does leaves the other threads as they were, and leaves the
  // shared variables alone unless t owns the lock before or after.
  lemma StepIsLocal(s: State, t: nat, call: Call, o: int)
    requires Enabled(s, t) && (call == CallSpawn ==> t == 0) && Holds(s, t, o)
    ensures var s' := Step(s, t, call);
            && s'.threads.Keys == s.threads.Keys
            && (forall u :: u in s.threads && u != t ==> s'.threads[u] == s.threads[u])
            && (o != t && !Owns(s'.threads[t]) ==> s'.tid == s.tid && s'.count == s.count && s'.locked == s.locked)
            && (o != t && Owns(s'.threads[t]) ==> o == -1)
            && (s'.tid == s.tid || s'.tid == -1 || s'.tid == t)
            && (s.created ==> s'.created) && (s'.created != s.created ==> t == 0 && s'.threads == s.threads)
  {
  }

  // Is a thread at this point inside a call to unlock?
  predicate InUnlock(pc: Pc) {
    pc.UnlockTest? || pc.DropRead? || pc.DropWrite? || pc.DropTest? || pc.ClearTid? || pc.Release?
  }

  lemma LockKeepsWord(s: State, t: nat, call: Call, o: int)
    requires Enabled(s, t) && (call == CallSpawn ==> t == 0) && Holds(s, t, o) && !InUnlock(s.threads[t].pc)
    ensures t in Step(s, t, call).threads && WordOk(Step(s, t, call), t)
  {
  }

  lemma UnlockKeepsWord(s: State, t: nat, call: Call, o: int)
    requires Enabled(s, t) && Holds(s, t, o) && InUnlock(s.threads[t].pc)
    ensures t in Step(s, t, call).threads && WordOk(Step(s, t, call), t)
  {
  }

  lemma StepKeepsThread(s: State, t: nat, call: Call, o: int)
    requires Enabled(s, t) && (call == CallSpawn ==> t == 0) && Holds(s, t, o)
    ensures t in Step(s, t, call).threads && ThreadOk(Step(s, t, call), t)
  {
    if InUnlock(s.threads[t].pc) {
      UnlockKeepsWord(s, t, call, o);
    } else {
      LockKeepsWord(s, t, call, o);
    }
    hide WordOk, Owns;
  }

  lemma StepFreesLock(s: State, t: nat, call: Call, o: int)
    requires Enabled(s, t) && (call == CallSpawn ==> t == 0) && Holds(s, t, o)
    ensures NextOwner(s, t, call, o) == -1 ==> Step(s, t, call).Free()
  {
  }

  lemma StepKeepsOthers(s: State, t: nat, call: Call, o: int, u: nat)
    requires (forall v :: v in s.threads ==> ThreadOk(s, v)) && OwnedBy(s, o)
    requires Enabled(s, t) && (call == CallSpawn ==> t == 0) && u in s.threads && u != t
    ensures u in Step(s, t, call).threads && ThreadOk(Step(s, t, call), u)
  {
    OwnerHolds(s, t, o);
    StepIsLocal(s, t, call, o);
    hide Step;
    assert ThreadOk(s, u) && ThreadOk(s, t);
  }

  lemma StepKeepsOwner(s: State, t: nat, call: Call, o: int)
    requires Enabled(s, t) && (call == CallSpawn ==> t == 0)
    requires OwnedBy(s, o) && Holds(s, t, o)
    ensures OwnedBy(Step(s, t, call), NextOwner(s, t, call, o))
  {
    StepIsLocal(s, t, call, o);
    StepKeepsThread(s, t, call, o);
    StepFreesLock(s, t, call, o);
    hide Step;
  }

  lemma StepKeepsInv(s: State, t: nat, call: Call)
    requires Inv(s) && Enabled(s, t) && (call == CallSpawn ==> t == 0)
    ensures Inv(Step(s, t, call))
  {
    var o :| OwnedBy(s, o);
    OwnerHolds(s, t, o);
    StepIsLocal(s, t, call, o);
    StepKeepsThread(s, t, call, o);
    StepKeepsOwner(s, t, call, o);
    hide Step, ThreadOk, OwnedBy;
    forall u | u in s.threads ensures ThreadOk(Step(s, t, call), u) {
      if u != t {
        StepKeepsOthers(s, t, call, o, u);
      }
    }
  }

  // ----- runs -----

  ghost predicate Next(s: State, s': State) {
    exists t, call :: Enabled(s, t) && (call == CallSpawn ==> t == 0) && s' == Step(s, t, call)
  }

  ghost predicate Run(ss: seq<State>) {
    0 < |ss| && Init(ss[0]) && forall i :: 0 <= i < |ss| - 1 ==> Next(ss[i], ss[i + 1])
  }

  lemma {:induction false} RunsKeepInv(ss: seq<State>)
    requires Run(ss)
    ensures Inv(ss[|ss| - 1])
  {
    if |ss| == 1 {
      assert OwnedBy(ss[0], -1);
    } else {
      RunsKeepInv(ss[..|ss| - 1]);
      var i := |ss| - 2;
      assert Next(ss[i], ss[i + 1]);
      var t, call :| Enabled(ss[i], t) && (call == CallSpawn ==> t == 0) && ss[i + 1] == Step(ss[i], t, call);
      StepKeepsInv(ss[i], t, call);
    }
  }

  // Calls to lock that returned to thread t in a run, less calls to unlock that
  // returned to it.
  ghost function Balance(ss: seq<State>, t: nat): int
    requires forall s :: s in ss ==> t in s.threads
  {
    if |ss| <= 1 then 0
    else
      Balance(ss[..|ss| - 1], t) + Returned(ss[|ss| - 2].threads[t].pc, ss[|ss| - 1].threads[t].pc)
  }

  function Returned(before: Pc, after: Pc): int {
    if after != Idle then 0
    else if before.AgainWrite? || before.FirstWrite? then 1
    else if before.DropTest? || before.Release? then -1
    else 0
  }

  predicate Unlocking(pc: Pc) {
    pc.DropTest? || pc.ClearTid? || pc.Release?
  }

  lemma BalanceStep(s: State, t: nat, call: Call, u: nat)
    requires Inv(s) && Enabled(s, t) && (call == CallSpawn ==> t == 0) && u in s.threads
    ensures var a, b := s.threads[u], Step(s, t, call).threads[u];
      b.depth + (if Unlocking(b.pc) then 1 else 0)
        == a.depth + (if Unlocking(a.pc) then 1 else 0) + Returned(a.pc, b.pc)
  {
    assert ThreadOk(s, t);
  }

  lemma {:induction false} SameThreads(ss: seq<State>)
    requires Run(ss)
    ensures forall s :: s in ss ==> s.threads.Keys == ss[0].threads.Keys
  {
    if |ss| > 1 {
      var front := ss[..|ss| - 1];
      SameThreads(front);
      var i := |ss| - 2;
      assert Next(ss[i], ss[i + 1]) && front[i] in front;
      assert ss == front + [ss[|ss| - 1]];
    }
  }

  lemma BalanceOfStep(s: State, s': State, u: nat)
    requires Inv(s) && Next(s, s') && u in s.threads
    ensures u in s'.threads
    ensures var a, b := s.threads[u], s'.threads[u];
      b.depth + (if Unlocking(b.pc) then 1 else 0)
        == a.depth + (if Unlocking(a.pc) then 1 else 0) + Returned(a.pc, b.pc)
  {
    var t, call :| Enabled(s, t) && (call == CallSpawn ==> t == 0) && s' == Step(s, t, call);
    BalanceStep(s, t, call, u);
  }

  // The nesting depth the model keeps for a thread counts its calls.
  lemma {:induction false} DepthCountsCalls(ss: seq<State>, u: nat)
    requires Run(ss) && u in ss[0].threads
    ensures forall s :: s in ss ==> u in s.threads
    ensures var th := ss[|ss| - 1].threads[u];
      th.depth + (if Unlocking(th.pc) then 1 else 0) == Balance(ss, u)
  {
    SameThreads(ss);
    if |ss| > 1 {
      var front := ss[..|ss| - 1];
      DepthCountsCalls(front, u);
      RunsKeepInv(front);
      var i := |ss| - 2;
      assert Next(ss[i], ss[i + 1]) && front[i] == ss[i];
      hide Run, Inv, Next, Returned, Unlocking;
      BalanceOfStep(ss[i], ss[i + 1], u);
    }
  }

  // ----- what the lock promises -----

  // A thread is inside while it holds the lock in its own code.
  predicate Inside(th: Thread) {
    th.pc == Idle && th.depth > 0
  }

  // In every reachable state at most one thread is inside, and then count is
  // its nesting depth and tid its id.
  lemma MutualExclusion(ss: seq<State>, t: nat, u: nat)
    requires Run(ss)
    ensures var s := ss[|ss| - 1];
      t in s.threads && u in s.threads && Inside(s.threads[t]) ==>
        && (Inside(s.threads[u]) ==> t == u)
        && s.locked && s.tid == t && s.count == s.threads[t].depth
  {
    RunsKeepInv(ss);
    var s := ss[|ss| - 1];
    var o :| OwnedBy(s, o);
    if t in s.threads && u in s.threads && Inside(s.threads[t]) {
      assert ThreadOk(s, t);
    }
  }

  // The unsynchronised test tid == currthread tells whether the testing thread
  // holds the lock: when it is read, by lock or by unlock, tid is the thread's
  // id exactly when its depth is positive.
  lemma TidTestIsExact(ss: seq<State>, t: nat)
    requires Run(ss)
    ensures var s := ss[|ss| - 1];
      t in s.threads && (s.threads[t].pc == LockTest || s.threads[t].pc == UnlockTest) ==>
        (s.tid == t <==> s.threads[t].depth > 0)
  {
    RunsKeepInv(ss);
    var s := ss[|ss| - 1];
    if t in s.threads {
      assert ThreadOk(s, t);
    }
  }

  // The mutex word is released only by its owner, when it holds the lock no
  // more; and a thread aborts only if it unlocks what it does not hold.
  lemma OnlyOutermostUnlockReleases(ss: seq<State>, t: nat, call: Call)
    requires Run(ss) && Enabled(ss[|ss| - 1], t) && (call == CallSpawn ==> t == 0)
    ensures var s := ss[|ss| - 1];
      var s' := Step(s, t, call);
      && (s.locked && !s'.locked ==> s.threads[t] == Thread(Release, 0) && s.tid == -1 && s.count == 0)
      && (s.threads[t].pc == DropTest ==> (s'.threads[t].pc == ClearTid <==> s.threads[t].depth == 0))
      && (s'.threads[t].pc == Aborted <==> s.threads[t] == Thread(UnlockTest, 0))
  {
    RunsKeepInv(ss);
    assert ThreadOk(ss[|ss| - 1], t);
  }

  // The atomic exchange is used only once a thread has been created, and the plain
  // store only before.
  lemma ExchangeOnlyWithThreads(ss: seq<State>, t: nat)
    requires Run(ss)
    ensures var s := ss[|ss| - 1];
      && (t in s.threads && s.threads[t].pc == BasePlain ==> !s.created && t == 0)
      && (t in s.threads && s.threads[t].pc in {BaseExchange, Contended, Spin} ==> s.created)
  {
    RunsKeepInv(ss);
    var s := ss[|ss| - 1];
    if t in s.threads {
      assert ThreadOk(s, t);
    }
  }

  // While a thread owns the lock, no step of another thread changes tid, count
  // or the mutex word, or makes the other thread the owner.
  lemma OwnerIsUndisturbed(ss: seq<State>, o: nat, t: nat, call: Call)
    requires Run(ss) && Enabled(ss[|ss| - 1], t) && (call == CallSpawn ==> t == 0)
    requires var s := ss[|ss| - 1]; o in s.threads && Owns(s.threads[o]) && t != o
    ensures var s := ss[|ss| - 1];
      var s' := Step(s, t, call);
      s'.tid == s.tid && s'.count == s.count && s'.locked == s.locked && !Owns(s'.threads[t])
      && s'.threads[o] == s.threads[o]
  {
    RunsKeepInv(ss);
    var s := ss[|ss| - 1];
    var w :| OwnedBy(s, w);
    OwnerHolds(s, t, w);
    StepIsLocal(s, t, call, w);
  }

  // ----- progress -----

  // Nothing but steps of t, all of them inside one call.
  ghost predicate Alone(path: seq<State>, t: nat) {
    && 0 < |path|
    && forall i :: 0 <= i < |path| - 1 ==>
         Enabled(path[i], t) && path[i].threads[t].pc != Idle && path[i + 1] == Step(path[i], t, CallLock)
  }

  // Steps that are left of the call, when nobody else holds the lock.
  function Rank(pc: Pc): nat {
    match pc
    case Idle => 0
    case LockTest => 6
    case AgainRead => 2
    case AgainWrite(_) => 1
    case BaseTest => 5
    case BasePlain => 4
    case BaseExchange => 4
    case Contended => 4
    case Spin => 5
    case SetTid => 3
    case FirstRead => 2
    case FirstWrite(_) => 1
    case UnlockTest => 6
    case DropRead => 5
    case DropWrite(_) => 4
    case DropTest => 3
    case ClearTid => 2
    case Release => 1
    case Aborted => 0
  }

  // The depth at which the call will return.
  function DepthAfter(th: Thread): int {
    if th.pc == Idle || Unlocking(th.pc) then th.depth
    else if InUnlock(th.pc) then th.depth - 1
    else th.depth + 1
  }

  // t can go on: it owns the lock, or it is on its way to a lock that is free.
  ghost predicate Unhindered(s: State, t: nat)
    requires t in s.threads
  {
    Owns(s.threads[t]) || (s.Free() && !InUnlock(s.threads[t].pc))
  }

  lemma LockForward(s: State, t: nat)
    requires Enabled(s, t) && ThreadOk(s, t) && Unhindered(s, t) && s.threads[t].pc != Idle
    requires !InUnlock(s.threads[t].pc)
    ensures var s' := Step(s, t, CallLock);
      && Enabled(s', t) && Unhindered(s', t)
      && Rank(s'.threads[t].pc) < Rank(s.threads[t].pc) && DepthAfter(s'.threads[t]) == DepthAfter(s.threads[t])
  {
  }

  lemma UnlockForward(s: State, t: nat)
    requires Enabled(s, t) && ThreadOk(s, t) && Unhindered(s, t) && s.threads[t].pc != Idle
    requires InUnlock(s.threads[t].pc)
    ensures var s' := Step(s, t, CallLock);
      && Enabled(s', t) && Unhindered(s', t)
      && Rank(s'.threads[t].pc) < Rank(s.threads[t].pc) && DepthAfter(s'.threads[t]) == DepthAfter(s.threads[t])
  {
  }

  lemma StepForward(s: State, t: nat)
    requires Enabled(s, t) && ThreadOk(s, t) && Unhindered(s, t) && s.threads[t].pc != Idle
    ensures var s' := Step(s, t, CallLock);
      && Enabled(s', t) && Unhindered(s', t)
      && Rank(s'.threads[t].pc) < Rank(s.threads[t].pc) && DepthAfter(s'.threads[t]) == DepthAfter(s.threads[t])
  {
    hide Step, ThreadOk, Unhindered, Rank, DepthAfter, InUnlock;
    if InUnlock(s.threads[t].pc) {
      UnlockForward(s, t);
    } else {
      LockForward(s, t);
    }
  }

  lemma {:induction false} CallReturns(s: State, t: nat) returns (path: seq<State>)
    requires Inv(s) && Enabled(s, t) && Unhindered(s, t)
    ensures Alone(path, t) && path[0] == s && |path| <= Rank(s.threads[t].pc) + 1
    ensures var e := path[|path| - 1];
      && t in e.threads && e.threads[t].pc == Idle && e.threads[t].depth == DepthAfter(s.threads[t])
      && (if e.threads[t].depth == 0 then e.Free()
          else e.locked && e.tid == t && e.count == e.threads[t].depth)
    decreases Rank(s.threads[t].pc)
  {
    assert ThreadOk(s, t);
    if s.threads[t].pc == Idle {
      path := [s];
    } else {
      StepForward(s, t);
      StepKeepsInv(s, t, CallLock);
      hide Step, Inv, Rank, DepthAfter, Unhindered, ThreadOk;
      var rest := CallReturns(Step(s, t, CallLock), t);
      path := [s] + rest;
    }
  }

  // From every reachable state in which the lock is free, a thread anywhere inside a
  // call to lock gets it in at most six steps of its own.
  lemma FreeLockIsTaken(ss: seq<State>, t: nat) returns (path: seq<State>)
    requires Run(ss) && Enabled(ss[|ss| - 1], t) && ss[|ss| - 1].Free()
    requires var pc := ss[|ss| - 1].threads[t].pc; pc != Idle && !InUnlock(pc)
    ensures Alone(path, t) && path[0] == ss[|ss| - 1] && |path| <= 7
    ensures var e := path[|path| - 1];
      t in e.threads && e.threads[t] == Thread(Idle, 1) && e.locked && e.tid == t && e.count == 1
  {
    RunsKeepInv(ss);
    assert ThreadOk(ss[|ss| - 1], t);
    path := CallReturns(ss[|ss| - 1], t);
  }

  // The holder, anywhere inside a call, returns from it in at most six steps of its
  // own: from lock one level deeper, from unlock one level higher, and from the
  // outermost unlock with the lock free.
  lemma HolderReturns(ss: seq<State>, t: nat) returns (path: seq<State>)
    requires Run(ss) && Enabled(ss[|ss| - 1], t) && Owns(ss[|ss| - 1].threads[t])
    ensures Alone(path, t) && path[0] == ss[|ss| - 1] && |path| <= 7
    ensures var th, e := ss[|ss| - 1].threads[t], path[|path| - 1];
      && t in e.threads && e.threads[t].pc == Idle
      && (th.pc == LockTest ==> e.threads[t].depth == th.depth + 1)
      && (th.pc == UnlockTest ==> e.threads[t].depth == th.depth - 1)
      && (if e.threads[t].depth == 0 then !e.locked && e.tid == -1 && e.count == 0
          else e.locked && e.tid == t && e.count == e.threads[t].depth)
  {
    RunsKeepInv(ss);
    path := CallReturns(ss[|ss| - 1], t);
  }
}
