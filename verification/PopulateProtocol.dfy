/** popBlocksWithCV of primary64.h over the condition variable of
    condition_variable_linux.cpp, as atomic steps of any number of threads. */
module PopulateProtocol {
  import opened Common

  /** Where a thread is. A ticket is the counter value that it waits for to change. */
  datatype Place =
    | Away                    // neither popping nor pushing
    | Trying                  // at the top of the loop
    | Populating              // claimed the refill of the free list
    | Populated               // done with it, the claim not yet taken back
    | Checking                // somebody else populates: about to look at the free list
    | Waiting(ticket: nat)    // in wait, the lock given up, about to sleep
    | Asleep(ticket: nat)
    | Relocking               // in wait, after sleeping
    | Bumping                 // in notifyAll, about to advance the counter
    | Notifying(v: nat)       // about to wake the sleepers
    | Recording(v: nat)       // about to note that they were notified

  /** `free` blocks are in the free list, `out` were popped and not pushed back, and
      `cut` is how many blocks the region was cut into so far. `lock` is the holder of
      the free list lock across steps; a critical section that is a single step needs
      it to be free. */
  datatype State = State(free: nat, out: nat, cut: nat, populating: bool, counter: nat, lastNotifyAll: nat,
                         lock: Option<nat>, at: seq<Place>)

  datatype Action =
    | Start
    | Pop(k: nat)
    | Claim
    | Populate(n: nat, k: nat)
    | Clear
    | Check(k: nat)
    | Sleep
    | Interrupted
    | Relock(k: nat)
    | Push(n: nat)
    | Bump
    | WakeAll
    | Record

  ghost predicate Init(s: State) {
    && s.free + s.out == s.cut && !s.populating && s.counter == 0 && s.lastNotifyAll == 0 && s.lock == None
    && forall t :: 0 <= t < |s.at| ==> s.at[t] == Away
  }

  function Go(s: State, t: nat, p: Place): State
    requires t < |s.at|
  {
    s.(at := s.at[t := p])
  }

  /** `k` blocks leave the free list. */
  function Take(s: State, k: nat): State
    requires k <= s.free
  {
    s.(free := s.free - k, out := s.out + k)
  }

  /** FUTEX_WAKE of all sleepers. */
  function Awake(at: seq<Place>): (r: seq<Place>)
    ensures |r| == |at|
  {
    seq(|at|, i requires 0 <= i < |at| => if at[i].Asleep? then Relocking else at[i])
  }

  ghost predicate Step(s: State, t: nat, a: Action, s': State) {
    t < |s.at| &&
    match a
    case Start => s.at[t] == Away && s.lock == None && s.free == 0 && s' == Go(s, t, Trying)
    case Pop(k) => s.at[t] == Away && s.lock == None && 1 <= k <= s.free && s' == Take(s, k)
    case Claim =>
      && s.at[t] == Trying && s.lock == None
      && s' == (if s.populating then Go(s, t, Checking) else Go(s, t, Populating).(populating := true))
    case Populate(n, k) =>
      s.at[t] == Populating && s.lock == None
      && (if n == 0 then k == 0 else 1 <= k <= s.free + n)
      && s' == Take(Go(s, t, Populated).(free := s.free + n, cut := s.cut + n), k)
    case Clear =>
      s.at[t] == Populated && s.lock == None && s' == Go(s, t, Bumping).(populating := false, lock := Some(t))
    case Check(k) =>
      && s.at[t] == Checking && s.lock == None
      && (if s.free > 0 then 1 <= k <= s.free && s' == Take(Go(s, t, Away), k)
          else if !s.populating then s' == Go(s, t, Trying)
          else s' == Go(s, t, Waiting(s.counter + 1)).(counter := s.counter + 1))
    case Sleep =>
      s.at[t].Waiting? && s' == Go(s, t, if s.counter == s.at[t].ticket then Asleep(s.at[t].ticket) else Relocking)
    case Interrupted => s.at[t].Asleep? && s' == Go(s, t, Relocking)
    case Relock(k) =>
      && s.at[t] == Relocking && s.lock == None
      && (if s.free > 0 then 1 <= k <= s.free && s' == Take(Go(s, t, Away), k)
          else s' == Go(s, t, Trying))
    case Push(n) =>
      s.at[t] == Away && s.lock == None && n <= s.out
      && s' == Go(s, t, Bumping).(free := s.free + n, out := s.out - n, lock := Some(t))
    case Bump =>
      s.at[t] == Bumping && s' == Go(s, t, Notifying(s.counter)).(counter := s.counter + 1)
    case WakeAll =>
      && s.at[t].Notifying?
      && s' == Go(s.(at := if s.lastNotifyAll != s.at[t].v then Awake(s.at) else s.at), t, Recording(s.at[t].v))
    case Record =>
      s.at[t].Recording? && s' == Go(s, t, Away).(lastNotifyAll := s.at[t].v + 1, lock := None)
  }

  /** With the lock free any number of the free blocks can be popped, any number of those
      that are out pushed, and any number cut by the populating thread. */
  lemma BlocksCanMove(s: State, t: nat, n: nat, k: nat)
    requires t < |s.at| && s.lock == None
    ensures s.at[t] == Away && 0 < k <= s.free ==> exists s' :: Step(s, t, Pop(k), s') && s'.free == s.free - k
    ensures s.at[t] == Away && n <= s.out ==> exists s' :: Step(s, t, Push(n), s') && s'.free == s.free + n
    ensures s.at[t] == Away && s.free == 0 ==> exists s' :: Step(s, t, Start, s') && s'.at[t] == Trying
    ensures s.at[t] == Populating && 0 < k <= s.free + n && n > 0 ==>
      exists s' :: Step(s, t, Populate(n, k), s') && s'.cut == s.cut + n && s'.free == s.free + n - k
  {
    if s.at[t] == Away && 0 < k <= s.free {
      assert Step(s, t, Pop(k), Take(s, k));
    }
    if s.at[t] == Away && n <= s.out {
      assert Step(s, t, Push(n), Go(s, t, Bumping).(free := s.free + n, out := s.out - n, lock := Some(t)));
    }
    if s.at[t] == Away && s.free == 0 {
      assert Step(s, t, Start, Go(s, t, Trying));
    }
    if s.at[t] == Populating && 0 < k <= s.free + n && n > 0 {
      assert Step(s, t, Populate(n, k), Take(Go(s, t, Populated).(free := s.free + n, cut := s.cut + n), k));
    }
  }

  // ---- The invariant ----------------------------------------------------

  predicate IsPopulator(p: Place) {
    p == Populating || p == Populated
  }

  predicate HoldsLock(p: Place) {
    p.Bumping? || p.Notifying? || p.Recording?
  }

  /** Populating or Bumping or Notifying: will still wake all who sleep now. */
  predicate WillNotify(p: Place) {
    IsPopulator(p) || p.Bumping? || p.Notifying?
  }

  ghost predicate OnePopulator(s: State) {
    && (forall t, u :: 0 <= t < |s.at| && 0 <= u < |s.at| && IsPopulator(s.at[t]) && IsPopulator(s.at[u]) ==> t == u)
    && (s.populating <==> exists t :: 0 <= t < |s.at| && IsPopulator(s.at[t]))
  }

  ghost predicate LockOk(s: State) {
    && (s.lock.Some? ==> s.lock.value < |s.at|)
    && forall t :: 0 <= t < |s.at| ==> (HoldsLock(s.at[t]) <==> s.lock == Some(t))
  }

  /** The state of one notification: tickets handed out before it are below the
      counter, and once it has woken the sleepers nobody sleeps. */
  ghost predicate NotifyOk(s: State) {
    && s.lastNotifyAll <= s.counter
    && forall t, u :: 0 <= t < |s.at| && 0 <= u < |s.at| && (s.at[t].Notifying? || s.at[t].Recording?) ==>
      && s.counter == s.at[t].v + 1 && s.lastNotifyAll <= s.at[t].v
      && (s.at[u].Waiting? || s.at[u].Asleep? ==> s.at[u].ticket <= s.at[t].v)
      && (s.at[t].Recording? ==> !s.at[u].Asleep?)
  }

  /** A thread that sleeps or may still fall asleep has a ticket newer than the last
      notification, and somebody will notify it. */
  ghost predicate WaitersOk(s: State) {
    forall t :: 0 <= t < |s.at| ==> WaiterOk(s, s.at[t])
  }

  ghost predicate WaiterOk(s: State, p: Place) {
    && (p.Waiting? ==> p.ticket <= s.counter)
    && (p.Waiting? && p.ticket == s.counter ==> s.lastNotifyAll < p.ticket && (s.populating || SomeoneBumps(s)))
    && (p.Asleep? ==> s.lastNotifyAll < p.ticket <= s.counter && (s.populating || SomeoneWakes(s)))
  }

  ghost predicate SomeoneBumps(s: State) {
    s.lock.Some? && s.lock.value < |s.at| && s.at[s.lock.value] == Bumping
  }

  ghost predicate SomeoneWakes(s: State) {
    s.lock.Some? && s.lock.value < |s.at| && (s.at[s.lock.value] == Bumping || s.at[s.lock.value].Notifying?)
  }

  ghost predicate Inv(s: State) {
    s.free + s.out == s.cut && OnePopulator(s) && LockOk(s) && NotifyOk(s) && WaitersOk(s)
  }

  lemma InitInv(s: State)
    requires Init(s)
    ensures Inv(s)
  {
  }

  lemma {:induction false} StepInv(s: State, t: nat, a: Action, s': State)
    requires Inv(s) && Step(s, t, a, s')
    ensures Inv(s') && |s'.at| == |s.at|
  {
    BlocksStep(s, t, a, s');
    PopulatorStep(s, t, a, s');
    LockStep(s, t, a, s');
    NotifyStep(s, t, a, s');
    WaitersStep(s, t, a, s');
  }

  /** No block is lost or made up, and only the populator adds any. */
  lemma BlocksStep(s: State, t: nat, a: Action, s': State)
    requires s.free + s.out == s.cut && Step(s, t, a, s')
    ensures s'.free + s'.out == s'.cut && s.cut <= s'.cut
    ensures s.cut < s'.cut ==> s.at[t] == Populating
  {
  }

  lemma {:induction false} PopulatorStep(s: State, t: nat, a: Action, s': State)
    requires OnePopulator(s) && Step(s, t, a, s')
    ensures OnePopulator(s') && |s'.at| == |s.at|
  {
    OthersPopulate(s, t, a, s');
    if IsPopulator(s'.at[t]) {
      assert s'.populating;
    }
  }

  /** Only the thread that steps can become or stop being the populator. */
  lemma OthersPopulate(s: State, t: nat, a: Action, s': State)
    requires Step(s, t, a, s')
    ensures |s'.at| == |s.at| && forall u :: 0 <= u < |s.at| && u != t ==> IsPopulator(s'.at[u]) == IsPopulator(s.at[u])
  {
  }

  lemma {:induction false} LockStep(s: State, t: nat, a: Action, s': State)
    requires LockOk(s) && Step(s, t, a, s')
    ensures LockOk(s')
  {
  }

  lemma {:induction false} NotifyStep(s: State, t: nat, a: Action, s': State)
    requires LockOk(s) && NotifyOk(s) && WaitersOk(s) && Step(s, t, a, s')
    ensures NotifyOk(s')
  {
    hide OnePopulator, SomeoneBumps, SomeoneWakes;
  }

  lemma {:induction false} WaitersStep(s: State, t: nat, a: Action, s': State)
    requires Inv(s) && Step(s, t, a, s')
    ensures WaitersOk(s')
  {
    hide OnePopulator;
  }

  // ---- Whole runs -------------------------------------------------------

  ghost predicate CanStep(s: State, s': State) {
    exists t, a :: Step(s, t, a, s')
  }

  ghost predicate Run(states: seq<State>) {
    states != [] && Init(states[0]) && forall i :: 0 < i < |states| ==> CanStep(states[i - 1], states[i])
  }

  lemma {:induction false} RunInv(states: seq<State>, i: nat)
    requires Run(states) && i < |states|
    ensures Inv(states[i]) && |states[i].at| == |states[0].at|
  {
    hide Inv, Init;
    if i == 0 {
      InitInv(states[0]);
    } else {
      RunInv(states, i - 1);
      assert CanStep(states[i - 1], states[i]);
      var t, a :| Step(states[i - 1], t, a, states[i]);
      StepInv(states[i - 1], t, a, states[i]);
    }
  }

  /** In every run the free blocks and those popped add up to the ones cut so far,
      and that number never falls. */
  lemma {:induction false} NoBlockLost(states: seq<State>, i: nat, j: nat)
    requires Run(states) && i <= j < |states|
    ensures states[j].free + states[j].out == states[j].cut && states[i].cut <= states[j].cut
  {
    hide Step, Init, OnePopulator, LockOk, NotifyOk, WaitersOk;
    RunInv(states, j);
    if i < j {
      NoBlockLost(states, i, j - 1);
      assert CanStep(states[j - 1], states[j]);
      var t, a :| Step(states[j - 1], t, a, states[j]);
      BlocksStep(states[j - 1], t, a, states[j]);
    }
  }

  /** In popBlocksWithCV, but not populating. */
  predicate InLoop(p: Place) {
    p.Trying? || p.Checking? || p.Waiting? || p.Asleep? || p.Relocking?
  }

  /** A thread that looks at the free list gives up the lock to wait exactly if there is
      no free block and another thread populates, and then nothing has happened yet that
      would keep it from sleeping; it returns exactly if there is a free block, with at
      least one of them; and it starts to populate exactly if nobody else does. */
  lemma {:induction false} WaitsOnlyIfEmpty(states: seq<State>, i: nat, t: nat, a: Action)
    requires Run(states) && i + 1 < |states| && Step(states[i], t, a, states[i + 1]) && InLoop(states[i].at[t])
    ensures t < |states[i + 1].at|
    ensures states[i].at[t] == Checking ==> (states[i + 1].at[t].Waiting? <==> states[i].free == 0 && states[i].populating)
    ensures states[i + 1].at[t].Waiting? ==>
      && states[i].free == 0 && states[i + 1].at[t].ticket == states[i + 1].counter > states[i].counter
      && exists u :: 0 <= u < |states[i].at| && u != t && IsPopulator(states[i].at[u])
    ensures states[i + 1].at[t] == Away ==>
      states[i + 1].free < states[i].free && states[i + 1].out - states[i].out == states[i].free - states[i + 1].free
    ensures states[i].at[t] == Trying ==>
      (states[i + 1].at[t] == Populating <==> forall u :: 0 <= u < |states[i].at| ==> !IsPopulator(states[i].at[u]))
    ensures states[i].at[t] == Checking || states[i].at[t] == Relocking ==>
      (states[i + 1].at[t] == Away <==> states[i].free > 0)
  {
    RunInv(states, i);
    hide LockOk, NotifyOk, WaitersOk;
    if states[i].populating {
      var u :| 0 <= u < |states[i].at| && IsPopulator(states[i].at[u]);
    }
  }

  /** The steps that change the counter: a thread starts to wait, or notifies. */
  ghost predicate Advances(s: State, s': State) {
    exists u :: 0 <= u < |s.at| && u < |s'.at| &&
      ((s.at[u] == Checking && s'.at[u].Waiting?) || (s.at[u] == Bumping && s'.at[u].Notifying?))
  }

  lemma {:induction false} CounterMoves(s: State, t: nat, a: Action, s': State)
    requires Step(s, t, a, s')
    ensures s.counter <= s'.counter && (s.counter < s'.counter <==> Advances(s, s'))
  {
    OthersMove(s, t, a, s');
    if a.Check? || a.Bump? {
      assert Advances(s, s') <==> s.counter < s'.counter;
    } else {
      forall u | 0 <= u < |s.at| && u != t
        ensures !(s.at[u] == Checking && s'.at[u].Waiting?) && !(s.at[u] == Bumping && s'.at[u].Notifying?)
      {
      }
    }
  }

  lemma OthersMove(s: State, t: nat, a: Action, s': State)
    requires Step(s, t, a, s')
    ensures |s'.at| == |s.at|
    ensures forall u :: 0 <= u < |s.at| && u != t ==> s'.at[u] == s.at[u] || (s.at[u].Asleep? && s'.at[u] == Relocking)
  {
  }

  lemma {:induction false} CounterStays(states: seq<State>, i: nat, j: nat)
    requires Run(states) && i <= j < |states|
    ensures states[i].counter <= states[j].counter
    ensures states[i].counter == states[j].counter <==> forall k :: i <= k < j ==> !Advances(states[k], states[k + 1])
  {
    hide Step, Init, Advances;
    if i < j {
      CounterStays(states, i, j - 1);
      assert CanStep(states[j - 1], states[j]);
      var t, a :| Step(states[j - 1], t, a, states[j]);
      CounterMoves(states[j - 1], t, a, states[j]);
      assert states[j] == states[(j - 1) + 1];
    }
  }

  /** A thread that gave up the lock to wait falls asleep exactly if since then no other
      thread started to wait and none notified; otherwise it goes on at once. */
  lemma {:induction false} SleepsIff(states: seq<State>, i: nat, j: nat, t: nat, a: Action)
    requires Run(states) && i < j && j + 1 < |states| && t < |states[i].at|
    requires states[i].at[t] == Checking && states[i + 1].at[t].Waiting? && Step(states[i], t, a, states[i + 1])
    requires t < |states[j].at| && states[j].at[t] == states[i + 1].at[t] && Step(states[j], t, Sleep, states[j + 1])
    ensures states[j + 1].at[t].Asleep? <==> forall k :: i < k < j ==> !Advances(states[k], states[k + 1])
    ensures !states[j + 1].at[t].Asleep? ==> states[j + 1].at[t] == Relocking
  {
    hide Advances, Init;
    CounterStays(states, i + 1, j);
  }

  /** In no reachable state do two threads populate the free list. */
  lemma {:induction false} AtMostOnePopulator(states: seq<State>, i: nat, t: nat, u: nat)
    requires Run(states) && i < |states| && t < |states[i].at| && u < |states[i].at|
    requires IsPopulator(states[i].at[t]) && IsPopulator(states[i].at[u])
    ensures t == u && states[i].populating
  {
    RunInv(states, i);
  }

  /** Whenever a thread sleeps there is another one that will notify it: the
      populator, or a thread in the middle of notifying. */
  lemma {:induction false} SleeperHasNotifier(states: seq<State>, i: nat, t: nat)
    requires Run(states) && i < |states| && t < |states[i].at| && states[i].at[t].Asleep?
    ensures exists u :: 0 <= u < |states[i].at| && u != t && WillNotify(states[i].at[u])
  {
    RunInv(states, i);
    var s := states[i];
    assert WaiterOk(s, s.at[t]);
    if s.populating {
      var u :| 0 <= u < |s.at| && IsPopulator(s.at[u]);
      assert WillNotify(s.at[u]);
    } else {
      assert WillNotify(s.at[s.lock.value]);
    }
  }

  /** Once notifyAll is done, also when it skipped the wake-up, nobody sleeps, and no
      thread that called wait before can still fall asleep on its old ticket. */
  lemma {:induction false} NotifyIsComplete(states: seq<State>, i: nat, t: nat, u: nat, v: nat, j: nat)
    requires Run(states) && i + 1 < |states| && t < |states[i].at| && Step(states[i], t, Record, states[i + 1])
    requires u < |states[i + 1].at|
    ensures !states[i + 1].at[u].Asleep?
    ensures states[i + 1].at[u] == Waiting(v) && i < j < |states| ==>
      u < |states[j].at| && states[j].at[u] != Asleep(v) && v < states[j].counter
  {
    RunInv(states, i);
    AfterNotify(states[i], t, states[i + 1], u, v);
    if states[i + 1].at[u] == Waiting(v) && i < j < |states| {
      StaysAwake(states, i + 1, j, u, v);
    }
  }

  lemma {:induction false} AfterNotify(s: State, t: nat, s': State, u: nat, v: nat)
    requires Inv(s) && t < |s.at| && Step(s, t, Record, s') && u < |s'.at|
    ensures !s'.at[u].Asleep? && (s'.at[u] == Waiting(v) ==> v < s'.counter)
  {
    hide OnePopulator, WaitersOk, SomeoneBumps, SomeoneWakes;
  }

  lemma {:induction false} StaysAwake(states: seq<State>, i: nat, j: nat, u: nat, v: nat)
    requires Run(states) && i <= j < |states| && u < |states[i].at|
    requires states[i].at[u] != Asleep(v) && v < states[i].counter
    ensures u < |states[j].at| && states[j].at[u] != Asleep(v) && v < states[j].counter
  {
    hide Inv, Step, Init;
    if i < j {
      StaysAwake(states, i, j - 1, u, v);
      assert CanStep(states[j - 1], states[j]);
      RunInv(states, j - 1);
      RunInv(states, j);
      var t, a :| Step(states[j - 1], t, a, states[j]);
      OldTicket(states[j - 1], t, a, states[j], u, v);
    }
  }

  lemma {:induction false} OldTicket(s: State, t: nat, a: Action, s': State, u: nat, v: nat)
    requires Inv(s) && Step(s, t, a, s') && u < |s.at| && s.at[u] != Asleep(v) && v < s.counter
    ensures u < |s'.at| && s'.at[u] != Asleep(v) && v < s'.counter
  {
    hide Inv;
  }

  // ---- No sleeper is forgotten ------------------------------------------

  /** A step that is not a sleeper waking for no reason. */
  ghost predicate RealStep(s: State, s': State) {
    exists t, a :: a != Interrupted && Step(s, t, a, s')
  }

  ghost predicate SomeoneAsleep(s: State) {
    exists t :: 0 <= t < |s.at| && s.at[t].Asleep?
  }

  /** From `s`, `path` leads to a state where nobody who sleeps in `s` sleeps. */
  ghost predicate WakesEverybody(s: State, path: seq<State>) {
    && path != [] && path[0] == s && (forall i :: 0 < i < |path| ==> RealStep(path[i - 1], path[i]))
    && var last := path[|path| - 1];
       |last.at| == |s.at| && forall u :: 0 <= u < |s.at| && s.at[u].Asleep? ==> last.at[u] == Relocking
  }

  lemma {:induction false} WakesFirst(s: State, t: nat, a: Action, s': State, path: seq<State>)
    requires a != Interrupted && Step(s, t, a, s') && WakesEverybody(s', path) && |s'.at| == |s.at|
    requires forall u :: 0 <= u < |s.at| && s.at[u].Asleep? ==> s'.at[u].Asleep?
    ensures WakesEverybody(s, [s] + path)
  {
    hide Step;
    var all := [s] + path;
    assert RealStep(s, s');
    forall i | 0 < i < |all| ensures RealStep(all[i - 1], all[i]) {
      assert i > 1 ==> RealStep(path[i - 2], path[i - 1]);
    }
    assert all[|all| - 1] == path[|path| - 1];
  }

  lemma {:induction false} FromNotifying(s: State, t: nat) returns (path: seq<State>)
    requires Inv(s) && SomeoneAsleep(s) && t < |s.at| && s.at[t].Notifying?
    ensures WakesEverybody(s, path) && |path| == 2
  {
    var u :| 0 <= u < |s.at| && s.at[u].Asleep?;
    assert WaiterOk(s, s.at[u]) && s.lastNotifyAll < s.at[u].ticket <= s.at[t].v;
    var s' := Go(s.(at := Awake(s.at)), t, Recording(s.at[t].v));
    assert Step(s, t, WakeAll, s');
    path := [s, s'];
    assert RealStep(path[0], path[1]);
  }

  lemma {:induction false} FromBumping(s: State, t: nat) returns (path: seq<State>)
    requires Inv(s) && SomeoneAsleep(s) && t < |s.at| && s.at[t] == Bumping
    ensures WakesEverybody(s, path) && |path| == 3
  {
    var s' := Go(s, t, Notifying(s.counter)).(counter := s.counter + 1);
    StepInv(s, t, Bump, s');
    hide Inv;
    StillAsleep(s, t, s');
    path := FromNotifying(s', t);
    WakesFirst(s, t, Bump, s', path);
    path := [s] + path;
  }

  lemma {:induction false} FromPopulated(s: State, t: nat) returns (path: seq<State>)
    requires Inv(s) && SomeoneAsleep(s) && t < |s.at| && s.at[t] == Populated && s.lock == None
    ensures WakesEverybody(s, path) && |path| == 4
  {
    var s' := Go(s, t, Bumping).(populating := false, lock := Some(t));
    StepInv(s, t, Clear, s');
    hide Inv;
    StillAsleep(s, t, s');
    path := FromBumping(s', t);
    WakesFirst(s, t, Clear, s', path);
    path := [s] + path;
  }

  lemma {:induction false} FromPopulating(s: State, t: nat) returns (path: seq<State>)
    requires Inv(s) && SomeoneAsleep(s) && t < |s.at| && s.at[t] == Populating && s.lock == None
    ensures WakesEverybody(s, path) && |path| == 5
  {
    var s' := Go(s, t, Populated).(free := s.free);
    assert Step(s, t, Populate(0, 0), s');
    StepInv(s, t, Populate(0, 0), s');
    hide Inv;
    StillAsleep(s, t, s');
    path := FromPopulated(s', t);
    WakesFirst(s, t, Populate(0, 0), s', path);
    path := [s] + path;
  }

  lemma StillAsleep(s: State, t: nat, s': State)
    requires SomeoneAsleep(s) && t < |s.at| && !s.at[t].Asleep? && |s'.at| == |s.at|
    requires forall u :: 0 <= u < |s.at| && u != t ==> s'.at[u] == s.at[u]
    ensures SomeoneAsleep(s')
    ensures forall u :: 0 <= u < |s.at| && s.at[u].Asleep? ==> s'.at[u].Asleep?
  {
    var u :| 0 <= u < |s.at| && s.at[u].Asleep?;
    assert s'.at[u].Asleep?;
  }

  lemma LockIsFree(s: State, u: nat)
    requires LockOk(s) && NotifyOk(s) && u < |s.at| && s.at[u].Asleep? && !SomeoneWakes(s)
    ensures s.lock == None
  {
  }

  /** Whenever threads sleep, four steps of the thread that will notify wake them
      all, even if it finds nothing to populate the free list with. */
  lemma {:induction false} SleepersCanWake(s: State) returns (path: seq<State>)
    requires Inv(s) && SomeoneAsleep(s)
    ensures WakesEverybody(s, path) && |path| <= 5
  {
    var u :| 0 <= u < |s.at| && s.at[u].Asleep?;
    assert WaiterOk(s, s.at[u]);
    if SomeoneWakes(s) {
      var t := s.lock.value;
      if s.at[t] == Bumping {
        path := FromBumping(s, t);
      } else {
        path := FromNotifying(s, t);
      }
    } else {
      var t :| 0 <= t < |s.at| && IsPopulator(s.at[t]);
      LockIsFree(s, u);
      hide Inv;
      if s.at[t] == Populated {
        path := FromPopulated(s, t);
      } else {
        path := FromPopulating(s, t);
      }
    }
  }

  // ---- Nobody is stuck in the loop --------------------------------------

  /** Out of the loop: populating, or back with blocks. */
  predicate Served(p: Place) {
    p == Populating || p == Away
  }

  /** From `s`, `path` leads by real steps to a state in which `t` is served. */
  ghost predicate Serves(s: State, t: nat, path: seq<State>) {
    && path != [] && path[0] == s && (forall i :: 0 < i < |path| ==> RealStep(path[i - 1], path[i]))
    && var last := path[|path| - 1]; t < |last.at| && Served(last.at[t])
  }

  lemma {:induction false} ServesFirst(s: State, s': State, t: nat, path: seq<State>)
    requires RealStep(s, s') && Serves(s', t, path)
    ensures Serves(s, t, [s] + path)
  {
    hide RealStep, Served;
    var all := [s] + path;
    forall i | 0 < i < |all| ensures RealStep(all[i - 1], all[i]) {
      assert i > 1 ==> RealStep(path[i - 2], path[i - 1]);
    }
    assert all[|all| - 1] == path[|path| - 1];
  }

  /** How many steps are left of the one who holds the lock. */
  function LockSteps(p: Place): nat {
    if p == Bumping then 3 else if p.Notifying? then 2 else if p.Recording? then 1 else 0
  }

  /** How many steps are left of whoever populates or notifies. */
  ghost function Pending(s: State): nat {
    (if s.lock.Some? && s.lock.value < |s.at| then LockSteps(s.at[s.lock.value]) else 0)
    + if !s.populating then 0
      else if exists u :: 0 <= u < |s.at| && s.at[u] == Populating then 5 else 4
  }

  /** How far a thread in the loop is from its top. */
  function LoopSteps(p: Place): nat {
    if p.Trying? then 0 else if p.Checking? || p.Relocking? then 1 else 2
  }

  /** A real step after which `t` is served or nearer to it. */
  ghost predicate Nearer(s: State, t: nat, s': State) {
    && RealStep(s, s') && Inv(s') && t < |s.at| == |s'.at|
    && (|| Served(s'.at[t])
        || (InLoop(s'.at[t]) &&
            (Pending(s') < Pending(s)
             || (Pending(s') == Pending(s) && LoopSteps(s'.at[t]) < LoopSteps(s.at[t])))))
  }

  lemma RealAndOk(s: State, u: nat, a: Action, s': State)
    requires Inv(s) && Step(s, u, a, s') && a != Interrupted
    ensures RealStep(s, s') && Inv(s') && |s'.at| == |s.at|
  {
    StepInv(s, u, a, s');
  }

  /** The next step of whoever holds the lock. */
  lemma {:induction false} LockHolderStep(s: State) returns (a: Action, s': State)
    requires LockOk(s) && s.lock.Some?
    ensures Step(s, s.lock.value, a, s') && a != Interrupted
    ensures |s'.at| == |s.at| && s'.populating == s.populating
    ensures OthersStay(s.at, s.lock.value, s'.at)
    ensures LockSteps(s.at[s.lock.value]) > LockSteps(s'.at[s.lock.value])
    ensures s'.lock == s.lock || (s'.lock == None && LockSteps(s'.at[s.lock.value]) == 0)
  {
    var u := s.lock.value;
    if s.at[u] == Bumping {
      a, s' := Bump, Go(s, u, Notifying(s.counter)).(counter := s.counter + 1);
    } else if s.at[u].Notifying? {
      var at := if s.lastNotifyAll != s.at[u].v then Awake(s.at) else s.at;
      a, s' := WakeAll, Go(s.(at := at), u, Recording(s.at[u].v));
    } else {
      a, s' := Record, Go(s, u, Away).(lastNotifyAll := s.at[u].v + 1, lock := None);
    }
  }

  /** Nobody but `u` moves, except that sleepers may wake; `u` holds the lock before. */
  ghost predicate OthersStay(at: seq<Place>, u: nat, at': seq<Place>) {
    && u < |at| == |at'| && HoldsLock(at[u]) && at'[u] != Populating
    && forall w :: 0 <= w < |at| && w != u ==> (at'[w] == at[w] || (at[w].Asleep? && at'[w] == Relocking))
  }

  lemma {:induction false} LockHolderSteps(s: State, t: nat) returns (s': State)
    requires Inv(s) && t < |s.at| && InLoop(s.at[t]) && s.lock.Some?
    ensures Nearer(s, t, s')
  {
    hide Step, RealStep, NotifyOk, WaitersOk, OnePopulator, LockSteps;
    var a;
    a, s' := LockHolderStep(s);
    SamePopulating(s.at, s.lock.value, s'.at);
    RealAndOk(s, s.lock.value, a, s');
    hide Inv, LockOk;
  }

  /** Steps of the lock holder leave the populating thread where it is. */
  lemma SamePopulating(at: seq<Place>, u: nat, at': seq<Place>)
    requires OthersStay(at, u, at')
    ensures (exists w :: 0 <= w < |at| && at[w] == Populating) <==> (exists w :: 0 <= w < |at'| && at'[w] == Populating)
  {
    if w :| 0 <= w < |at| && at[w] == Populating {
      assert at'[w] == Populating;
    }
    if w :| 0 <= w < |at'| && at'[w] == Populating {
      assert at[w] == Populating;
    }
  }

  lemma {:induction false} PopulatorSteps(s: State, t: nat) returns (s': State)
    requires Inv(s) && t < |s.at| && InLoop(s.at[t]) && s.lock == None && s.populating
    ensures Nearer(s, t, s')
  {
    var u :| 0 <= u < |s.at| && IsPopulator(s.at[u]);
    hide LockOk, NotifyOk, WaitersOk, RealStep;
    if s.at[u] == Populating {
      s' := Go(s, u, Populated);
      RealAndOk(s, u, Populate(0, 0), s');
      forall w | 0 <= w < |s'.at| ensures s'.at[w] != Populating {
        assert w != u ==> s'.at[w] == s.at[w];
      }
    } else {
      s' := Go(s, u, Bumping).(populating := false, lock := Some(u));
      RealAndOk(s, u, Clear, s');
    }
    hide Inv, Step;
  }

  lemma {:induction false} OwnSteps(s: State, t: nat) returns (s': State)
    requires Inv(s) && t < |s.at| && InLoop(s.at[t]) && s.lock == None && !s.populating
    ensures Nearer(s, t, s')
  {
    assert WaiterOk(s, s.at[t]);
    hide OnePopulator, LockOk, NotifyOk, WaitersOk;
    var a;
    if s.at[t] == Trying {
      a, s' := Claim, Go(s, t, Populating).(populating := true);
    } else if s.at[t].Waiting? {
      a, s' := Sleep, Go(s, t, Relocking);
    } else {
      a := if s.at[t] == Checking then Check(1) else Relock(1);
      s' := if s.free > 0 then Take(Go(s, t, Away), 1) else Go(s, t, Trying);
    }
    assert Step(s, t, a, s');
    hide Step, Inv, RealStep;
    RealAndOk(s, t, a, s');
  }

  /** From every state that is in order real steps bring any thread in the loop to
      blocks or to populating the free list itself. */
  lemma {:induction false} CanGetOn(s: State, t: nat) returns (path: seq<State>)
    requires Inv(s) && t < |s.at| && InLoop(s.at[t])
    ensures Serves(s, t, path)
    decreases Pending(s), LoopSteps(s.at[t])
  {
    hide Inv, Step, RealStep;
    var s';
    if s.lock.Some? {
      s' := LockHolderSteps(s, t);
    } else if s.populating {
      s' := PopulatorSteps(s, t);
    } else {
      s' := OwnSteps(s, t);
    }
    if Served(s'.at[t]) {
      path := [s, s'];
    } else {
      path := CanGetOn(s', t);
      ServesFirst(s, s', t, path);
      path := [s] + path;
    }
  }
}
