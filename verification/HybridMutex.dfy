/** The futex mutex of linux.cpp as atomic steps of any number of threads. */
module HybridMutex {

  const UNLOCKED := 0
  const LOCKED := 1
  const SLEEPING := 2

  /** Where a thread is. `Exchanging`: about to exchange the word for `SLEEPING`;
      `Waiting`: about to ask the kernel to sleep; `Storing`, `Waking`: in unlock,
      after the decrement and after the store. */
  datatype Place = Outside | Exchanging | Waiting | Asleep | Critical | Storing | Waking

  datatype State = State(word: nat, at: seq<Place>)

  datatype Action =
    | TryLock                     // the compare-and-exchange of tryLock
    | LockSlow                    // that of lockSlow
    | Exchange
    | Wait(spurious: bool)        // FUTEX_WAIT; returns at once if the word is not SLEEPING
    | Interrupted                 // a sleeper wakes for no reason
    | Decrement
    | Store
    | Wake(sleeper: nat)          // FUTEX_WAKE of one sleeper, if there is one

  ghost predicate Init(s: State) {
    s.word == UNLOCKED && forall t :: 0 <= t < |s.at| ==> s.at[t] == Outside
  }

  function Move(s: State, t: nat, word: nat, p: Place): State
    requires t < |s.at|
  {
    State(word, s.at[t := p])
  }

  ghost predicate Step(s: State, t: nat, a: Action, s': State) {
    t < |s.at| &&
    match a
    case TryLock =>
      s.at[t] == Outside && s' == if s.word == UNLOCKED then Move(s, t, LOCKED, Critical) else s
    case LockSlow =>
      s.at[t] == Outside &&
      s' == (if s.word == UNLOCKED then Move(s, t, LOCKED, Critical)
             else Move(s, t, s.word, if s.word == SLEEPING then Waiting else Exchanging))
    case Exchange =>
      s.at[t] == Exchanging && s' == Move(s, t, SLEEPING, if s.word == UNLOCKED then Critical else Waiting)
    case Wait(spurious) =>
      s.at[t] == Waiting && s' == Move(s, t, s.word, if s.word == SLEEPING && !spurious then Asleep else Exchanging)
    case Interrupted =>
      s.at[t] == Asleep && s' == Move(s, t, s.word, Exchanging)
    case Decrement =>
      s.at[t] == Critical && s.word > 0
      && s' == Move(s, t, s.word - 1, if s.word == LOCKED then Outside else Storing)
    case Store =>
      s.at[t] == Storing && s' == Move(s, t, UNLOCKED, Waking)
    case Wake(sleeper) =>
      && s.at[t] == Waking
      && (if SomeoneAsleep(s) then
            sleeper < |s.at| && s.at[sleeper] == Asleep
            && s' == Move(Move(s, t, s.word, Outside), sleeper, s.word, Exchanging)
          else s' == Move(s, t, s.word, Outside))
  }

  ghost predicate SomeoneAsleep(s: State) {
    exists t :: 0 <= t < |s.at| && s.at[t] == Asleep
  }

  /** Between acquiring the mutex and the write that frees it. */
  predicate Owner(p: Place) {
    p == Critical || p == Storing
  }

  /** Sure to reach the exchange or the wake-up that gets a sleeper going. */
  predicate Helper(p: Place) {
    p == Storing || p == Waking || p == Exchanging
  }

  ghost predicate OneOwner(s: State) {
    forall t, u :: 0 <= t < |s.at| && 0 <= u < |s.at| && Owner(s.at[t]) && Owner(s.at[u]) ==> t == u
  }

  ghost predicate Owned(s: State) {
    exists t :: 0 <= t < |s.at| && Owner(s.at[t])
  }

  ghost predicate Helped(s: State) {
    exists t :: 0 <= t < |s.at| && Helper(s.at[t])
  }

  /** At most one owner; the word is unlocked exactly without an owner; sleepers are
      announced in the word unless some thread is about to see to them. */
  ghost predicate Inv(s: State) {
    && s.word <= SLEEPING && OneOwner(s)
    && (s.word == UNLOCKED <==> !Owned(s))
    && (SomeoneAsleep(s) ==> s.word == SLEEPING || Helped(s))
  }

  lemma InitInv(s: State)
    requires Init(s)
    ensures Inv(s)
  {
  }

  lemma {:induction false} StepInv(s: State, t: nat, a: Action, s': State)
    requires Inv(s) && Step(s, t, a, s')
    ensures Inv(s') && |s'.at| == |s.at|
  {
    OwnersAfter(s, t, a, s');
    HelpersAfter(s, t, a, s');
  }

  lemma {:induction false} OwnersAfter(s: State, t: nat, a: Action, s': State)
    requires Inv(s) && Step(s, t, a, s')
    ensures |s'.at| == |s.at| && s'.word <= SLEEPING && OneOwner(s')
    ensures s'.word == UNLOCKED <==> !Owned(s')
  {
    hide SomeoneAsleep, Helped;
    if Owner(s'.at[t]) {
      assert Owned(s');
    } else if Owner(s.at[t]) {
      assert s'.word == UNLOCKED ==> !Owned(s');
    } else {
      assert forall u :: 0 <= u < |s.at| ==> (Owner(s.at[u]) <==> Owner(s'.at[u]));
    }
  }

  lemma {:induction false} HelpersAfter(s: State, t: nat, a: Action, s': State)
    requires Inv(s) && Step(s, t, a, s')
    ensures SomeoneAsleep(s') ==> s'.word == SLEEPING || Helped(s')
  {
    hide OneOwner, Owned;
    if SomeoneAsleep(s') && s'.word != SLEEPING {
      if Helper(s'.at[t]) {
        assert Helped(s');
      } else if a.Wake? && SomeoneAsleep(s) {
        assert Helper(s'.at[a.sleeper]);
      } else {
        assert SomeoneAsleep(s);
        var h :| 0 <= h < |s.at| && (s.word == SLEEPING || Helper(s.at[h]));
        assert s'.at[h] == s.at[h] || h == t;
      }
    }
  }

  // ---- Whole runs -------------------------------------------------------

  /** A run of steps of any threads, from `states[0]`. */
  ghost predicate Run(states: seq<State>) {
    states != [] && forall i :: 0 < i < |states| ==> CanStep(states[i - 1], states[i])
  }

  ghost predicate CanStep(s: State, s': State) {
    exists t, a :: Step(s, t, a, s')
  }

  lemma {:induction false} RunInv(states: seq<State>, i: nat)
    requires Run(states) && i < |states| && Inv(states[0])
    ensures Inv(states[i])
  {
    hide Inv;
    if i > 0 {
      RunInv(states, i - 1);
      assert CanStep(states[i - 1], states[i]);
      var t, a :| Step(states[i - 1], t, a, states[i]);
      StepInv(states[i - 1], t, a, states[i]);
    }
  }

  /** Mutual exclusion: in no reachable state are two threads in the critical
      section, and while one is there nobody else can acquire the mutex. */
  lemma {:induction false} MutualExclusion(states: seq<State>, i: nat, t: nat, u: nat)
    requires Run(states) && Init(states[0]) && i < |states|
    requires t < |states[i].at| && u < |states[i].at| && states[i].at[t] == Critical && states[i].at[u] == Critical
    ensures t == u && states[i].word != UNLOCKED
  {
    InitInv(states[0]);
    RunInv(states, i);
    assert Owner(states[i].at[t]) && Owner(states[i].at[u]);
  }

  /** Unlocking never takes the word below zero. */
  lemma {:induction false} UnlockIsPossible(states: seq<State>, i: nat, t: nat)
    requires Run(states) && Init(states[0]) && i < |states|
    requires t < |states[i].at| && states[i].at[t] == Critical
    ensures exists s' :: Step(states[i], t, Decrement, s')
  {
    InitInv(states[0]);
    RunInv(states, i);
    var s := states[i];
    assert Owner(s.at[t]);
    assert Step(s, t, Decrement, Move(s, t, s.word - 1, if s.word == LOCKED then Outside else Storing));
  }

  // ---- No sleeper is forgotten ------------------------------------------

  /** The kernel does not make this step by itself. */
  predicate Deliberate(a: Action) {
    a != Interrupted && a != Wait(true)
  }

  ghost predicate RealStep(s: State, s': State) {
    exists t, a :: Deliberate(a) && Step(s, t, a, s')
  }

  /** From `s`, `path` leads to a state where a thread that slept in `s` is awake, and
      no sleeper was interrupted on the way. */
  ghost predicate Wakes(s: State, path: seq<State>) {
    && path != [] && path[0] == s && (forall i :: 0 < i < |path| ==> RealStep(path[i - 1], path[i]))
    && var last := path[|path| - 1];
       |last.at| == |s.at| && exists u :: 0 <= u < |s.at| && s.at[u] == Asleep && last.at[u] == Exchanging
  }

  lemma {:induction false} WakesFirst(s: State, t: nat, a: Action, s': State, path: seq<State>)
    requires Deliberate(a) && Step(s, t, a, s') && Wakes(s', path) && |s'.at| == |s.at|
    requires forall u :: 0 <= u < |s.at| && s'.at[u] == Asleep ==> s.at[u] == Asleep
    ensures Wakes(s, [s] + path)
  {
    hide Step;
    var all := [s] + path;
    assert RealStep(s, s');
    forall i | 0 < i < |all| ensures RealStep(all[i - 1], all[i]) {
      assert i > 1 ==> RealStep(path[i - 2], path[i - 1]);
    }
    var u :| 0 <= u < |s'.at| && s'.at[u] == Asleep && path[|path| - 1].at[u] == Exchanging;
    assert all[|all| - 1] == path[|path| - 1];
  }

  lemma {:induction false} FromWaking(s: State, t: nat) returns (path: seq<State>)
    requires SomeoneAsleep(s) && t < |s.at| && s.at[t] == Waking
    ensures Wakes(s, path) && |path| == 2
  {
    var u :| 0 <= u < |s.at| && s.at[u] == Asleep;
    var s' := Move(Move(s, t, s.word, Outside), u, s.word, Exchanging);
    assert Step(s, t, Wake(u), s');
    path := [s, s'];
    assert RealStep(path[0], path[1]);
  }

  lemma {:induction false} FromStoring(s: State, t: nat) returns (path: seq<State>)
    requires SomeoneAsleep(s) && t < |s.at| && s.at[t] == Storing
    ensures Wakes(s, path) && |path| == 3
  {
    var s' := Move(s, t, UNLOCKED, Waking);
    StillAsleep(s, t, s');
    path := FromWaking(s', t);
    WakesFirst(s, t, Store, s', path);
    path := [s] + path;
  }

  lemma {:induction false} FromCritical(s: State, t: nat) returns (path: seq<State>)
    requires SomeoneAsleep(s) && t < |s.at| && s.at[t] == Critical && s.word == SLEEPING
    ensures Wakes(s, path) && |path| == 4
  {
    var s' := Move(s, t, LOCKED, Storing);
    StillAsleep(s, t, s');
    path := FromStoring(s', t);
    WakesFirst(s, t, Decrement, s', path);
    path := [s] + path;
  }

  lemma StillAsleep(s: State, t: nat, s': State)
    requires SomeoneAsleep(s) && t < |s.at| && s.at[t] != Asleep && |s'.at| == |s.at|
    requires forall u :: 0 <= u < |s.at| && u != t ==> s'.at[u] == s.at[u]
    ensures SomeoneAsleep(s')
  {
    var u :| 0 <= u < |s.at| && s.at[u] == Asleep;
    assert s'.at[u] == Asleep;
  }

  lemma {:induction false} FromAnnounced(s: State) returns (path: seq<State>)
    requires Inv(s) && SomeoneAsleep(s) && s.word == SLEEPING
    ensures Wakes(s, path) && |path| <= 4
  {
    var t :| 0 <= t < |s.at| && Owner(s.at[t]);
    if s.at[t] == Critical {
      path := FromCritical(s, t);
    } else {
      path := FromStoring(s, t);
    }
  }

  /** Whenever a thread sleeps, at most four steps of threads that are awake lead to
      a sleeper being woken: no state is stuck with sleepers. */
  lemma {:induction false} SleeperCanWake(s: State) returns (path: seq<State>)
    requires Inv(s) && SomeoneAsleep(s)
    ensures Wakes(s, path) && |path| <= 5
  {
    if s.word == SLEEPING {
      path := FromAnnounced(s);
    } else {
      var t :| 0 <= t < |s.at| && Helper(s.at[t]);
      if s.at[t] == Waking {
        path := FromWaking(s, t);
      } else if s.at[t] == Storing {
        path := FromStoring(s, t);
      } else {
        var s' := Move(s, t, SLEEPING, if s.word == UNLOCKED then Critical else Waiting);
        StepInv(s, t, Exchange, s');
        StillAsleep(s, t, s');
        path := FromAnnounced(s');
        WakesFirst(s, t, Exchange, s', path);
        path := [s] + path;
      }
    }
  }

  // ---- A free mutex can be acquired -------------------------------------

  /** In every reachable state tryLock acquires the mutex exactly if nobody owns it, and
      changes nothing otherwise. */
  lemma {:induction false} TryLockIff(states: seq<State>, i: nat, t: nat, s': State)
    requires Run(states) && Init(states[0]) && i < |states| && Step(states[i], t, TryLock, s')
    ensures s'.at[t] == Critical <==> !Owned(states[i])
    ensures Owned(states[i]) ==> s' == states[i]
  {
    InitInv(states[0]);
    RunInv(states, i);
  }

  /** So does the first attempt of lockSlow, and so does each exchange; a thread that
      fails goes on trying, and sleeps only while somebody owns the mutex. */
  lemma {:induction false} LockSlowIff(states: seq<State>, i: nat, t: nat, a: Action, s': State)
    requires Run(states) && Init(states[0]) && i < |states| && Step(states[i], t, a, s')
    requires a == LockSlow || a == Exchange || a.Wait?
    ensures !a.Wait? ==> (s'.at[t] == Critical <==> !Owned(states[i]))
    ensures s'.at[t] in {Critical, Exchanging, Waiting, Asleep}
    ensures s'.at[t] == Asleep ==> Owned(states[i])
    ensures a == Wait(false) && states[i].word == SLEEPING ==> s'.at[t] == Asleep
    ensures a == LockSlow && Owned(states[i]) ==>
      s'.word == states[i].word && s'.at[t] == if states[i].word == SLEEPING then Waiting else Exchanging
    ensures a == Exchange ==> s'.word == SLEEPING
  {
    InitInv(states[0]);
    RunInv(states, i);
  }

  // ---- Unlocking --------------------------------------------------------

  /** `t` is out of the mutex, and one thread that slept is awake if there was any. */
  ghost predicate WokeOne(s: State, t: nat, s': State)
    requires t < |s.at|
  {
    if SomeoneAsleep(s) then
      exists u :: 0 <= u < |s.at| && u != t && s.at[u] == Asleep && s'.at == s.at[t := Outside][u := Exchanging]
    else s'.at == s.at[t := Outside]
  }

  /** Whichever sleeper the kernel picks, exactly one is woken, and nobody else moves. */
  lemma {:induction false} WakesOne(s: State, t: nat, sleeper: nat, s': State)
    requires Step(s, t, Wake(sleeper), s')
    ensures WokeOne(s, t, s') && s'.word == s.word
  {
    if SomeoneAsleep(s) {
      assert s.at[sleeper] == Asleep;
    }
  }

  ghost predicate OwnStep(s: State, t: nat, s': State) {
    exists a :: Deliberate(a) && Step(s, t, a, s')
  }

  /** From every reachable state the thread in the critical section can unlock without
      help of others: in one step if nobody was announced to sleep, and otherwise in three,
      of which the last wakes one sleeper. Nobody owns the mutex then. */
  lemma {:induction false} CanUnlock(states: seq<State>, i: nat, t: nat) returns (path: seq<State>)
    requires Run(states) && Init(states[0]) && i < |states| && t < |states[i].at| && states[i].at[t] == Critical
    ensures |path| == (if states[i].word == LOCKED then 2 else 4) && path[0] == states[i]
    ensures forall k :: 0 < k < |path| ==> OwnStep(path[k - 1], t, path[k])
    ensures var last := path[|path| - 1];
      && last.word == UNLOCKED && !Owned(last)
      && if states[i].word == LOCKED then last.at == states[i].at[t := Outside] else WokeOne(states[i], t, last)
  {
    InitInv(states[0]);
    RunInv(states, i);
    var s := states[i];
    assert Owner(s.at[t]);
    var s1 := Move(s, t, s.word - 1, if s.word == LOCKED then Outside else Storing);
    assert Step(s, t, Decrement, s1);
    if s.word == LOCKED {
      path := [s, s1];
    } else {
      var s2 := Move(s1, t, UNLOCKED, Waking);
      assert Step(s1, t, Store, s2);
      var s3 := FinishWaking(s, s2, t);
      path := [s, s1, s2, s3];
    }
  }

  lemma {:induction false} FinishWaking(s: State, s': State, t: nat) returns (last: State)
    requires t < |s.at| && s.at[t] == Critical && s' == State(UNLOCKED, s.at[t := Waking])
    ensures OwnStep(s', t, last) && last.word == UNLOCKED && WokeOne(s, t, last)
  {
    if u :| 0 <= u < |s.at| && s.at[u] == Asleep {
      assert s'.at[u] == Asleep;
      last := Move(Move(s', t, UNLOCKED, Outside), u, UNLOCKED, Exchanging);
      assert Step(s', t, Wake(u), last);
      assert last.at == s.at[t := Outside][u := Exchanging];
    } else {
      forall u | 0 <= u < |s'.at| ensures s'.at[u] != Asleep {
        assert u != t ==> s'.at[u] == s.at[u];
      }
      last := Move(s', t, UNLOCKED, Outside);
      assert Step(s', t, Wake(0), last);
      assert last.at == s.at[t := Outside];
    }
  }

  /** `path` leads from `s` to a state in which `t` is in the critical section. */
  ghost predicate Acquires(s: State, path: seq<State>, t: nat) {
    && path != [] && path[0] == s && (forall i :: 0 < i < |path| ==> RealStep(path[i - 1], path[i]))
    && var last := path[|path| - 1];
       t < |last.at| && last.at[t] == Critical
  }

  lemma {:induction false} Stay(s: State, t: nat)
    requires t < |s.at| && s.at[t] == Critical
    ensures Acquires(s, [s], t)
  {
  }

  lemma {:induction false} StepFirst(s: State, u: nat, a: Action, s': State, path: seq<State>, t: nat)
    requires Deliberate(a) && Step(s, u, a, s') && Acquires(s', path, t)
    ensures Acquires(s, [s] + path, t)
  {
    hide Step, Deliberate;
    var all := [s] + path;
    assert RealStep(s, s');
    forall i | 0 < i < |all| ensures RealStep(all[i - 1], all[i]) {
      assert i > 1 ==> RealStep(path[i - 2], path[i - 1]);
    }
    assert all[|all| - 1] == path[|path| - 1];
  }

  /** One exchange acquires a free mutex. */
  lemma {:induction false} ByExchange(s: State, t: nat) returns (path: seq<State>)
    requires t < |s.at| && s.at[t] == Exchanging && s.word == UNLOCKED
    ensures Acquires(s, path, t) && |path| == 2
  {
    var s' := Move(s, t, SLEEPING, Critical);
    Stay(s', t);
    StepFirst(s, t, Exchange, s', [s'], t);
    path := [s, s'];
    assert path == [s] + [s'];
  }

  lemma {:induction false} ByWakeUp(s: State, h: nat, t: nat) returns (path: seq<State>)
    requires t < |s.at| && h < |s.at| && s.at[t] == Asleep && s.at[h] == Waking && s.word == UNLOCKED
    ensures Acquires(s, path, t) && |path| == 3
  {
    var s' := Move(Move(s, h, s.word, Outside), t, s.word, Exchanging);
    assert SomeoneAsleep(s);
    path := ByExchange(s', t);
    StepFirst(s, h, Wake(t), s', path, t);
    path := [s] + path;
  }

  /** The owner of a contended mutex frees it and wakes `t`. */
  lemma {:induction false} ByUnlock(s: State, h: nat, t: nat) returns (path: seq<State>)
    requires t < |s.at| && h < |s.at| && s.at[t] == Asleep && s.at[h] == Critical && s.word == SLEEPING
    ensures Acquires(s, path, t) && |path| == 5
  {
    var s1 := Move(s, h, LOCKED, Storing);
    var s2 := Move(s1, h, UNLOCKED, Waking);
    path := ByWakeUp(s2, h, t);
    StepFirst(s1, h, Store, s2, path, t);
    path := [s1] + path;
    StepFirst(s, h, Decrement, s1, path, t);
    path := [s] + path;
  }

  /** Whether a thread is about to lock the mutex or in the middle of it. */
  predicate Locking(p: Place) {
    p == Outside || p == Exchanging || p == Waiting || p == Asleep
  }

  lemma {:induction false} AcquireFree(s: State, t: nat) returns (path: seq<State>)
    requires Inv(s) && s.word == UNLOCKED && t < |s.at| && Locking(s.at[t])
    ensures Acquires(s, path, t) && |path| <= 6
    ensures s.at[t] == Outside ==> |path| == 2 && Step(s, t, LockSlow, path[1])
  {
    match s.at[t]
    case Outside =>
      var s' := Move(s, t, LOCKED, Critical);
      Stay(s', t);
      StepFirst(s, t, LockSlow, s', [s'], t);
      path := [s] + [s'];
    case Exchanging =>
      path := ByExchange(s, t);
    case Waiting =>
      var s' := Move(s, t, s.word, Exchanging);
      path := ByExchange(s', t);
      StepFirst(s, t, Wait(false), s', path, t);
      path := [s] + path;
    case Asleep =>
      assert SomeoneAsleep(s);
      var h :| 0 <= h < |s.at| && Helper(s.at[h]);
      assert !Owner(s.at[h]);
      if s.at[h] == Waking {
        path := ByWakeUp(s, h, t);
      } else {
        var s' := Move(s, h, SLEEPING, Critical);
        path := ByUnlock(s', h, t);
        StepFirst(s, h, Exchange, s', path, t);
        path := [s] + path;
      }
  }

  /** From every reachable state real steps lead any thread that locks the mutex, or
      sleeps waiting for it, into the critical section: at once if nobody owns it. */
  lemma {:induction false} CanAcquire(states: seq<State>, i: nat, t: nat) returns (path: seq<State>)
    requires Run(states) && Init(states[0]) && i < |states| && t < |states[i].at| && Locking(states[i].at[t])
    ensures Acquires(states[i], path, t) && |path| <= 8
    ensures !Owned(states[i]) && states[i].at[t] == Outside ==> |path| == 2 && Step(states[i], t, LockSlow, path[1])
  {
    InitInv(states[0]);
    RunInv(states, i);
    var s := states[i];
    if Owned(s) {
      path := AcquireOwned(s, t);
    } else {
      path := AcquireFree(s, t);
    }
  }

  lemma {:induction false} AcquireOwned(s: State, t: nat) returns (path: seq<State>)
    requires Inv(s) && Owned(s) && t < |s.at| && Locking(s.at[t])
    ensures Acquires(s, path, t) && |path| <= 8
  {
    var h :| 0 <= h < |s.at| && Owner(s.at[h]);
    if s.at[h] == Storing {
      path := AcquireStoring(s, h, t);
    } else {
      var s' := Move(s, h, s.word - 1, if s.word == LOCKED then Outside else Storing);
      StepInv(s, h, Decrement, s');
      if s.word == LOCKED {
        path := AcquireFree(s', t);
      } else {
        path := AcquireStoring(s', h, t);
      }
      StepFirst(s, h, Decrement, s', path, t);
      path := [s] + path;
    }
  }

  lemma {:induction false} AcquireStoring(s: State, h: nat, t: nat) returns (path: seq<State>)
    requires Inv(s) && h < |s.at| && s.at[h] == Storing && t < |s.at| && Locking(s.at[t])
    ensures Acquires(s, path, t) && |path| <= 7
  {
    var s' := Move(s, h, UNLOCKED, Waking);
    StepInv(s, h, Store, s');
    path := AcquireFree(s', t);
    StepFirst(s, h, Store, s', path, t);
    path := [s] + path;
  }
}
