/** GridWorldEnv of grid_world.py: an agent and a target on a size x size
    grid. Random draws are the caller's arguments; rendering is left out. */
module GridWorld {
  import opened Outcomes

  /** A location as the numpy arrays hold it: (first, second) coordinate. */
  type Pos = (int, int)

  datatype World = World(size: int, agent: Pos, target: Pos)

  /** What step returns: the new world (observation), reward, terminated,
      truncated. */
  datatype Transition = Transition(world: World, reward: int, terminated: bool, truncated: bool)

  function Abs(v: int): nat
  {
    if v < 0 then -v else v
  }

  /** The Manhattan distance reported in the info dictionary. */
  function Distance(a: Pos, b: Pos): nat
  {
    Abs(a.0 - b.0) + Abs(a.1 - b.1)
  }

  /** A location inside the grid. */
  predicate InGrid(size: int, p: Pos)
  {
    0 <= p.0 < size && 0 <= p.1 < size
  }

  /** _action_to_direction: 0 right, 1 up, 2 left, 3 down; any other action
      is a missing key (KeyError, None). */
  function Direction(action: int): (d: Option<Pos>)
    ensures d.Some? <==> 0 <= action < 4
    ensures d.Some? ==> Abs(d.value.0) + Abs(d.value.1) == 1
  {
    if action == 0 then Some((1, 0))
    else if action == 1 then Some((0, 1))
    else if action == 2 then Some((-1, 0))
    else if action == 3 then Some((0, -1))
    else None
  }

  /** Actions a and a + 2 (mod 4) point in opposite directions, and the four
      directions are pairwise different. */
  lemma DirectionsOpposite(a: int, b: int)
    requires 0 <= a < 4 && 0 <= b < 4
    ensures Direction((a + 2) % 4).value == (-Direction(a).value.0, -Direction(a).value.1)
    ensures a != b ==> Direction(a) != Direction(b)
  {
  }

  /** np.clip of one coordinate: max with lo, then min with hi. */
  function Clip(v: int, lo: int, hi: int): (r: int)
    ensures lo <= hi ==> lo <= r <= hi
    ensures lo <= v <= hi ==> r == v
    ensures lo <= hi && v < lo ==> r == lo
    ensures lo <= hi && v > hi ==> r == hi
  {
    var m := if v < lo then lo else v;
    if m > hi then hi else m
  }

  /** The agent moved one square in direction d, held inside the grid. */
  function Move(size: int, p: Pos, d: Pos): Pos
  {
    (Clip(p.0 + d.0, 0, size - 1), Clip(p.1 + d.1, 0, size - 1))
  }

  /** step: move the agent, clipped to the grid; the episode ends exactly
      when the agent stands on the target, with reward 1, else 0; truncated
      is always false. An action with no direction raises (None). */
  function Step(w: World, action: int): (r: Option<Transition>)
    ensures r.Some? <==> 0 <= action < 4
    ensures r.Some? ==> r.value.world.size == w.size && r.value.world.target == w.target
    ensures r.Some? ==> (r.value.terminated <==> r.value.world.agent == w.target)
    ensures r.Some? ==> r.value.reward == (if r.value.terminated then 1 else 0)
    ensures r.Some? ==> !r.value.truncated
  {
    match Direction(action)
    case None => None
    case Some(d) =>
      var agent := Move(w.size, w.agent, d);
      var done := agent == w.target;
      Some(Transition(World(w.size, agent, w.target), if done then 1 else 0, done, false))
  }

  /** On a non-empty grid the agent never leaves it. */
  lemma StepStaysInGrid(w: World, action: int, t: Transition)
    requires w.size >= 1 && Step(w, action) == Some(t)
    ensures InGrid(w.size, t.world.agent)
  {
  }

  /** From a square inside the grid, a step moves the agent by one square in
      the action's direction, or leaves it where it is when that square is
      outside the grid. */
  lemma StepMovesOneSquare(w: World, action: int, t: Transition)
    requires InGrid(w.size, w.agent) && Step(w, action) == Some(t)
    ensures var d := Direction(action).value;
      var dest := (w.agent.0 + d.0, w.agent.1 + d.1);
      t.world.agent == (if InGrid(w.size, dest) then dest else w.agent)
    ensures Distance(w.agent, t.world.agent) <= 1
  {
  }

  /** A step that was not blocked by the edge is undone by the opposite
      action. */
  lemma StepUndo(w: World, action: int, t: Transition, back: Transition)
    requires InGrid(w.size, w.agent) && Step(w, action) == Some(t)
    requires t.world.agent != w.agent
    requires Step(t.world, (action + 2) % 4) == Some(back)
    ensures back.world == w
  {
    DirectionsOpposite(action, action);
    StepMovesOneSquare(w, action, t);
  }

  /** A step changes the distance to the target by at most one. */
  lemma StepDistance(w: World, action: int, t: Transition)
    requires InGrid(w.size, w.agent) && Step(w, action) == Some(t)
    ensures Distance(t.world.agent, w.target) <= Distance(w.agent, w.target) + 1
    ensures Distance(w.agent, w.target) <= Distance(t.world.agent, w.target) + 1
  {
    StepMovesOneSquare(w, action, t);
  }

  /** reset: the agent takes the first draw; the target then takes draws
      until one differs from the agent. Each draw lies in the grid, as the
      random generator guarantees when the grid is not empty; for an empty
      grid the generator raises ValueError: None. When the given draws run
      out first, the loop would not end: None. used counts the target draws
      taken. */
  method Reset(size: int, agent: Pos, draws: seq<Pos>) returns (w: Option<World>, used: nat)
    requires size >= 1 ==> InGrid(size, agent)
    requires size >= 1 ==> forall i :: 0 <= i < |draws| ==> InGrid(size, draws[i])
    ensures size < 1 ==> w.None? && used == 0
    ensures w.Some? ==> used < |draws| && w.value == World(size, agent, draws[used])
    ensures w.Some? ==> draws[used] != agent
    ensures w.Some? ==> forall i :: 0 <= i < used ==> draws[i] == agent
    ensures w.Some? ==> InGrid(size, w.value.agent) && InGrid(size, w.value.target) && size >= 2
    ensures size >= 1 && w.None? ==> forall i :: 0 <= i < |draws| ==> draws[i] == agent
  {
    if size < 1 {
      return None, 0;
    }
    var target := agent;
    used := 0;
    while target == agent
      invariant used <= |draws|
      invariant forall i :: 0 <= i < used - 1 ==> draws[i] == agent
      invariant used > 0 ==> target == draws[used - 1]
      invariant used == 0 ==> target == agent
      decreases |draws| - used
    {
      if used == |draws| {
        return None, used;
      }
      target := draws[used];
      used := used + 1;
    }
    used := used - 1;
    w := Some(World(size, agent, target));
  }

  /** A reset world has the agent and the target at different squares of
      the grid, which takes a grid of at least two squares. */
  lemma ResetWorld(size: int, agent: Pos, target: Pos)
    requires InGrid(size, agent) && InGrid(size, target) && target != agent
    ensures size >= 2
    ensures Distance(agent, target) >= 1
    ensures Step(World(size, agent, target), 0).Some?
  {
  }
}
