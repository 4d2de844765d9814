// The game timer: `gameState.timer`, `gameState.timerInterval`, and the
// intervals the host keeps firing until they are cleared.
module Clock {
  import Grid

  datatype Option<T> = None | Some(value: T)

  class Timer {
    /** `gameState.timer`: the seconds shown. */
    var timer: nat
    /** `gameState.timerInterval`: the handle of the last interval started, or null. */
    var interval: Option<nat>
    /** The intervals the host still fires once a second. */
    var live: set<nat>
    /** The handle the host gives the next `setInterval`. */
    var next: nat

    /** Handles are issued once and never reused. */
    ghost predicate Valid()
      reads this
    {
      (forall h | h in live :: h < next)
      && (interval.Some? ==> interval.value < next)
    }

    /** The handle `timerInterval` holds, as a set. */
    function Held(): (h: set<nat>)
      reads this
      ensures |h| <= 1 && (interval.Some? ==> interval.value in h)
    {
      if interval.Some? then {interval.value} else {}
    }

    /** No interval runs except the one `timerInterval` can still clear. */
    ghost predicate Single()
      reads this
    {
      live <= Held()
    }

    /** The page before any game: no interval, timer at 0. */
    constructor ()
      ensures Valid() && Single()
      ensures timer == 0 && interval == None && live == {} && next == 1
    {
      timer, interval, live, next := 0, None, {}, 1;
    }

    /** `startTimer`: a new interval starts and its handle is kept. */
    method Start()
      requires Valid()
      modifies this
      ensures Valid()
      ensures interval == Some(old(next)) && old(next) !in old(live)
      ensures live == old(live) + {old(next)} && timer == old(timer) && next == old(next) + 1
      ensures old(live) == {} ==> Single()
    {
      interval := Some(next);
      live := live + {next};
      next := next + 1;
    }

    /** The `clearInterval` of `endGame`: the kept interval stops; the
      * handle itself is not reset. */
    method Stop()
      requires Valid()
      modifies this`live
      ensures Valid()
      ensures live == old(live) - Held()
      ensures old(Single()) ==> Single() && live == {}
    {
      live := live - Held();
    }

    /** One second passes: every live interval fires once and adds 1 to
      * the current `gameState.timer`. */
    method Tick()
      modifies this`timer
      ensures timer == old(timer) + |live|
      ensures Single() ==> timer <= old(timer) + 1
    {
      timer := timer + |live|;
      if Single() {
        Grid.SubsetCardinality(live, Held());
      }
    }

    /** The timer part of `initGame` as written: `gameState` is replaced
      * first, so the test that follows always sees a null handle and never
      * clears the running interval. */
    method ResetAsWritten()
      requires Valid()
      modifies this`timer, this`interval
      ensures Valid()
      ensures timer == 0 && interval == None && live == old(live)
    {
      timer, interval := 0, None;
    }

    /** The timer part of `initGame` with the running interval cleared
      * before `gameState` is replaced. */
    method Reset()
      requires Valid()
      modifies this
      ensures Valid()
      ensures timer == 0 && interval == None && live == old(live) - old(Held()) && next == old(next)
      ensures old(Single()) ==> live == {}
    {
      live := live - Held();
      timer, interval := 0, None;
    }
  }

  /** As written: a game started, then New Game, then the first click of
    * the new game leaves two intervals running, and the timer advances two
    * seconds per second. */
  method RestartLeaks() returns (t: Timer, ticked: nat)
    ensures |t.live| == 2 && ticked == 2
  {
    t := new Timer();
    t.Start();
    t.ResetAsWritten();
    t.Start();
    assert t.live == {1, 2};
    t.Tick();
    ticked := t.timer;
  }

  /** Corrected: the same steps leave one interval running, and every
    * later second adds exactly one to the timer. */
  method RestartClean() returns (t: Timer, ticked: nat)
    ensures |t.live| == 1 && ticked == 1
    ensures t.Single()
  {
    t := new Timer();
    t.Start();
    t.Reset();
    t.Start();
    assert t.live == {2};
    t.Tick();
    ticked := t.timer;
  }
}
