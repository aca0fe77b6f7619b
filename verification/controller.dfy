/**
 The page's controller: the 40 x 80 grid, the `running` flag and the
 `gameLoop` callbacks scheduled with `setTimeout`, driven by the Start,
 Pause and Reset buttons and by the timer firing.

 The host's timer queue is abstracted as the number `pending` of scheduled
 `gameLoop` callbacks: they are all the same callback, so the order in which
 they fire does not matter, only how many there are.
 */
module Controller {
  import opened Grids
  import opened Life

  const Rows: nat := 40
  const Cols: nat := 80

  datatype Sim = Sim(grid: Grid, running: bool, pending: nat)

  /**
   The states the page can reach: the grid has the page's shape and 0/1
   cells, and a running page always has a callback scheduled.
   */
  predicate Valid(s: Sim) {
    IsGrid(s.grid, Rows, Cols) && (s.running ==> s.pending > 0)
  }

  /** Page load: a random grid, not running, no callback scheduled. */
  function Init(draw: Draws): (s: Sim)
    ensures Valid(s) && !s.running && s.pending == 0
    ensures forall i, j :: 0 <= i < Rows && 0 <= j < Cols ==> (s.grid[i][j] == 1 <==> draw(i, j) > Threshold)
  {
    Sim(CreateGrid(Rows, Cols, draw), false, 0)
  }

  /**
   `gameLoop`: when running, one generation and one more scheduled callback;
   otherwise nothing at all.
   */
  function GameLoop(s: Sim): (r: Sim)
    requires IsGrid(s.grid, Rows, Cols)
    ensures Valid(r) && r.running == s.running
    ensures s.running ==> r.grid == Step(s.grid, Rows, Cols) && r.pending == s.pending + 1
    ensures !s.running ==> r == s
  {
    if s.running then Sim(Step(s.grid, Rows, Cols), true, s.pending + 1) else s
  }

  /**
   The Start button: sets `running` and calls `gameLoop` at once, without
   looking at whether the simulation was already running, so a second Start
   advances a generation and schedules a second callback chain.
   */
  function Start(s: Sim): (r: Sim)
    requires Valid(s)
    ensures Valid(r) && r.running
    ensures r.grid == Step(s.grid, Rows, Cols)
    ensures r.pending == s.pending + 1
  {
    GameLoop(s.(running := true))
  }

  /** The Pause button: clears `running`; callbacks already scheduled stay scheduled. */
  function Pause(s: Sim): (r: Sim)
    ensures !r.running && r.grid == s.grid && r.pending == s.pending
  {
    s.(running := false)
  }

  /** The Reset button: clears `running` and replaces the grid with a fresh random one of the page's shape. */
  function Reset(s: Sim, draw: Draws): (r: Sim)
    ensures Valid(r) && !r.running && r.pending == s.pending
    ensures forall i, j :: 0 <= i < Rows && 0 <= j < Cols ==> (r.grid[i][j] == 1 <==> draw(i, j) > Threshold)
  {
    Sim(CreateGrid(Rows, Cols, draw), false, s.pending)
  }

  /**
   One scheduled callback fires: it leaves the queue and runs `gameLoop`.
   With nothing scheduled, there is nothing to fire.
   */
  function Fire(s: Sim): (r: Sim)
    requires Valid(s)
    ensures Valid(r) && r.running == s.running
    ensures s.pending == 0 ==> r == s
    ensures s.pending > 0 && s.running ==> r.grid == Step(s.grid, Rows, Cols) && r.pending == s.pending
    ensures s.pending > 0 && !s.running ==> r.grid == s.grid && r.pending == s.pending - 1
  {
    if s.pending == 0 then s else GameLoop(s.(pending := s.pending - 1))
  }

  datatype Event = StartClick | PauseClick | ResetClick(draw: Draws) | TimerFires

  /** The controller's response to one event. */
  function Apply(s: Sim, e: Event): (r: Sim)
    requires Valid(s)
    ensures Valid(r)
  {
    match e
    case StartClick => Start(s)
    case PauseClick => Pause(s)
    case ResetClick(draw) => Reset(s, draw)
    case TimerFires => Fire(s)
  }

  /** The controller's state after a sequence of events; every event keeps the grid well-formed. */
  function Run(s: Sim, es: seq<Event>): (r: Sim)
    requires Valid(s)
    ensures Valid(r)
    decreases |es|
  {
    if |es| == 0 then s else Run(Apply(s, es[0]), es[1..])
  }

  /** `n` generations from `g`. */
  function Generations(g: Grid, n: nat): (r: Grid)
    requires IsGrid(g, Rows, Cols)
    ensures IsGrid(r, Rows, Cols)
    decreases n
  {
    if n == 0 then g else Step(Generations(g, n - 1), Rows, Cols)
  }

  /** `n` timer callbacks firing with no button pressed in between. */
  function Fires(s: Sim, n: nat): (r: Sim)
    requires Valid(s)
    ensures Valid(r) && r.running == s.running
    decreases n
  {
    if n == 0 then s else Fires(Fire(s), n - 1)
  }

  /**
   Once paused, no callback that fires changes the grid, and each one that
   fires leaves the queue: after `n` firings at most `pending - n` remain.
   */
  lemma {:induction false} PausedFiresAreInert(s: Sim, n: nat)
    requires Valid(s) && !s.running
    ensures Fires(s, n).grid == s.grid
    ensures Fires(s, n).pending == if n <= s.pending then s.pending - n else 0
    decreases n
  {
    if n > 0 {
      PausedFiresAreInert(Fire(s), n - 1);
    }
  }

  /** After Pause, timer callbacks advance no generation, even those scheduled before the click. */
  lemma PauseStopsGenerations(s: Sim, n: nat)
    requires Valid(s)
    ensures Fires(Pause(s), n).grid == s.grid
  {
    PausedFiresAreInert(Pause(s), n);
  }

  /**
   While stopped, Pause clicks and timer callbacks in any order and number
   leave the page stopped with its grid untouched.
   */
  lemma {:induction false} StoppedStaysStill(s: Sim, es: seq<Event>)
    requires Valid(s) && !s.running
    requires forall k :: 0 <= k < |es| ==> es[k].PauseClick? || es[k].TimerFires?
    ensures !Run(s, es).running && Run(s, es).grid == s.grid
    decreases |es|
  {
    if |es| > 0 {
      StoppedStaysStill(Apply(s, es[0]), es[1..]);
    }
  }

  /** While running, every callback that fires advances exactly one generation and re-arms itself. */
  lemma {:induction false} RunningFiresAdvance(s: Sim, n: nat)
    requires Valid(s) && s.running
    ensures Fires(s, n).grid == Generations(s.grid, n)
    ensures Fires(s, n).pending == s.pending
    decreases n
  {
    if n > 0 {
      var t := Fire(s);
      RunningFiresAdvance(t, n - 1);
      GenerationsFirst(s.grid, n - 1);
    }
  }

  /** Taking one generation first and then `n` is `n + 1` generations. */
  lemma {:induction false} GenerationsFirst(g: Grid, n: nat)
    requires IsGrid(g, Rows, Cols)
    ensures Generations(Step(g, Rows, Cols), n) == Generations(g, n + 1)
    decreases n
  {
    if n > 0 {
      GenerationsFirst(g, n - 1);
    }
  }

  /** Start from a stopped page with no callback scheduled starts exactly one callback chain. */
  lemma StartFromStopped(s: Sim, n: nat)
    requires Valid(s) && !s.running && s.pending == 0
    ensures Fires(Start(s), n).grid == Generations(s.grid, n + 1)
    ensures Fires(Start(s), n).pending == 1
  {
    RunningFiresAdvance(Start(s), n);
    GenerationsFirst(s.grid, n);
  }

  /**
   Start pressed twice leaves two callback chains, so each delay, in which
   both fire, advances two generations instead of one.
   */
  lemma DoubleStartDoublesSpeed(s: Sim, n: nat)
    requires Valid(s) && !s.running && s.pending == 0
    ensures Start(Start(s)).pending == 2
    ensures Fires(Start(Start(s)), 2 * n).grid == Generations(s.grid, 2 * n + 2)
  {
    var t := Start(Start(s));
    assert t.grid == Generations(s.grid, 2) by {
      GenerationsFirst(s.grid, 0);
      GenerationsFirst(s.grid, 1);
      GenerationsFirst(Step(s.grid, Rows, Cols), 0);
    }
    RunningFiresAdvance(t, 2 * n);
    GenerationsAdd(s.grid, 2, 2 * n);
  }

  /** `m` generations followed by `n` generations are `m + n` generations. */
  lemma {:induction false} GenerationsAdd(g: Grid, m: nat, n: nat)
    requires IsGrid(g, Rows, Cols)
    ensures Generations(Generations(g, m), n) == Generations(g, m + n)
    decreases n
  {
    if n > 0 {
      GenerationsAdd(g, m, n - 1);
    }
  }
}
