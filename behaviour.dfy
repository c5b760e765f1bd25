/** The monster decision rule: nearest-player search, then a priority chain
    (skip when dead, engage, freeze, wander) run once per tick. */
module Behaviour {
  import opened Types
  import opened SaveStream

  const BasicMonsterTypeId: string := "basic-monster-behaviour"
  const NullBehaviourTypeId: string := "null-behaviour"

  /** `std::pow(5, 2)`: a player this close (squared) is engaged. */
  const EngageDistanceSquared: int := 25
  /** `std::pow(100, 2)`: with the nearest player this far (squared) the monster freezes. */
  const FreezeDistanceSquared: int := 10000
  /** The starting bound of the nearest-player search; only players strictly closer are picked. */
  const NoPlayerDistance: int := 99999999
  /** The wander loop draws at most this many candidates. */
  const MaxWanderAttempts: nat := 10

  function Abs(n: int): nat {
    if n < 0 then -n else n
  }

  /** Squared Euclidean distance between the current tiles of two positions. */
  function SquaredDistance(a: Pos, b: Pos): (d: int)
    ensures d >= 0
    ensures d == 0 <==> a == b
  {
    var dx, dy := Abs(a.x - b.x), Abs(a.y - b.y);
    SquareZero(dx);
    SquareZero(dy);
    dx * dx + dy * dy
  }

  lemma SquareZero(n: nat)
    ensures n * n >= 0 && (n * n == 0 <==> n == 0)
  {
    if n > 0 {
      assert n * n >= n;
    }
  }

  lemma SquaredDistanceSymmetric(a: Pos, b: Pos)
    ensures SquaredDistance(a, b) == SquaredDistance(b, a)
  {
  }

  /** The current tiles of a roster, in roster order. */
  function Positions(players: seq<Actor>): (ps: seq<Pos>)
    reads players
    ensures |ps| == |players|
    ensures forall i :: 0 <= i < |players| ==> ps[i] == players[i].pos
  {
    if players == [] then [] else Positions(players[..|players| - 1]) + [players[|players| - 1].pos]
  }

  /** The roster index `findNearestPlayer` settles on for an actor at `me`:
      the scan keeps a player only when strictly closer than the best so far,
      starting from `NoPlayerDistance`. */
  function Nearest(ps: seq<Pos>, me: Pos): (r: Option<nat>)
    ensures r.Some? ==> r.value < |ps| && SquaredDistance(ps[r.value], me) < NoPlayerDistance
    decreases |ps|
  {
    if ps == [] then None
    else
      var r := Nearest(ps[..|ps| - 1], me);
      var best := if r.Some? then SquaredDistance(ps[r.value], me) else NoPlayerDistance;
      if SquaredDistance(ps[|ps| - 1], me) < best then Some(|ps| - 1) else r
  }

  /** `k` is the earliest roster index of minimal squared distance, and that distance is below the bound. */
  ghost predicate IsNearest(ps: seq<Pos>, me: Pos, k: nat) {
    && k < |ps|
    && SquaredDistance(ps[k], me) < NoPlayerDistance
    && (forall j :: 0 <= j < |ps| ==> SquaredDistance(ps[k], me) <= SquaredDistance(ps[j], me))
    && (forall j :: 0 <= j < k ==> SquaredDistance(ps[k], me) < SquaredDistance(ps[j], me))
  }

  /** The search finds nobody exactly when every player is at least `NoPlayerDistance`
      away (in particular for an empty roster); otherwise it finds a player of
      minimal distance, and among equally near players the earliest in roster order. */
  lemma {:induction false} NearestIsEarliestMinimum(ps: seq<Pos>, me: Pos)
    ensures Nearest(ps, me).None? <==> forall j :: 0 <= j < |ps| ==> SquaredDistance(ps[j], me) >= NoPlayerDistance
    ensures Nearest(ps, me).Some? ==> IsNearest(ps, me, Nearest(ps, me).value)
    decreases |ps|
  {
    if ps != [] {
      var init := ps[..|ps| - 1];
      NearestIsEarliestMinimum(init, me);
      assert forall j :: 0 <= j < |init| ==> init[j] == ps[j];
    }
  }

  /** Only one index can be the earliest nearest one. */
  lemma NearestIsUnique(ps: seq<Pos>, me: Pos, k: nat, k': nat)
    requires IsNearest(ps, me, k) && IsNearest(ps, me, k')
    ensures k == k'
  {
  }

  /** With the roster kept in strictly descending id order, a tie between
      equally near players goes to the one with the largest id. */
  lemma NearestPrefersHighestId(ps: seq<Pos>, ids: seq<int>, me: Pos, j: nat)
    requires |ids| == |ps|
    requires forall a, b :: 0 <= a < b < |ids| ==> ids[a] > ids[b]
    requires Nearest(ps, me).Some?
    requires j < |ps| && j != Nearest(ps, me).value
    requires SquaredDistance(ps[j], me) == SquaredDistance(ps[Nearest(ps, me).value], me)
    ensures ids[Nearest(ps, me).value] > ids[j]
  {
    NearestIsEarliestMinimum(ps, me);
  }

  function PlayerAt(players: seq<Actor>, r: Option<nat>): Option<Actor> {
    if r.Some? && r.value < |players| then Some(players[r.value]) else None
  }

  lemma NearestStep(ps: seq<Pos>, i: nat, me: Pos)
    requires i < |ps|
    ensures var r := Nearest(ps[..i], me);
      var best := if r.Some? then SquaredDistance(ps[r.value], me) else NoPlayerDistance;
      Nearest(ps[..i + 1], me) == if SquaredDistance(ps[i], me) < best then Some(i) else r
  {
    assert ps[..i + 1][..i] == ps[..i];
  }

  /** `findNearestPlayer`: the loop over the roster with its running minimum. */
  method FindNearestPlayer(players: seq<Actor>, actor: Actor) returns (nearest: Option<Actor>)
    ensures nearest == PlayerAt(players, Nearest(Positions(players), actor.pos))
  {
    ghost var ps := Positions(players);
    nearest := None;
    var minDistance := NoPlayerDistance;
    ghost var k: Option<nat> := None;
    var i := 0;
    while i < |players|
      invariant 0 <= i <= |players|
      invariant k == Nearest(ps[..i], actor.pos)
      invariant k.Some? ==> k.value < i
      invariant nearest == PlayerAt(players, k)
      invariant minDistance == if k.Some? then SquaredDistance(ps[k.value], actor.pos) else NoPlayerDistance
    {
      var distance := SquaredDistance(players[i].pos, actor.pos);
      NearestStep(ps, i, actor.pos);
      if distance < minDistance {
        minDistance := distance;
        nearest := Some(players[i]);
        k := Some(i);
      }
      i := i + 1;
    }
    assert ps[..i] == ps;
  }

  /** The abstract random stream: `rand(seed, k)` is the k-th draw of the
      generator seeded with `seed` (draws are counted from 0). */
  type Rng = (int, nat) -> nat

  /** One axis of a wander step: `(a - 1) * (b + 1)` for two draws reduced modulo 3. */
  function Offset(a: nat, b: nat): (r: int)
    requires a < 3 && b < 3
    ensures -3 <= r <= 3
    ensures r == 0 <==> a == 1
  {
    (a - 1) * (b + 1)
  }

  /** The candidate tile of wander attempt `attempt` (1-based): attempt j uses
      draws 4j-3 and 4j-2 for the x axis and 4j-1 and 4j for the y axis. */
  function Candidate(me: Pos, rand: Rng, seed: int, attempt: nat): Pos
    requires attempt >= 1
  {
    var d := 4 * (attempt - 1) + 1;
    Pos(me.x + Offset(rand(seed, d) % 3, rand(seed, d + 1) % 3),
        me.y + Offset(rand(seed, d + 2) % 3, rand(seed, d + 3) % 3))
  }

  /** The retry loop's stopping test for one candidate. */
  predicate Acceptable(passable: (int, int) -> bool, me: Pos, next: Pos) {
    passable(next.x, next.y) && next != me
  }

  /** The candidates one seed yields for attempts 1..10: entry `i` is the
      candidate of attempt `i + 1`. The ensures only unpack the definition;
      what holds of the candidates is in `WanderDestination` and `WanderGivesUp`. */
  function Candidates(me: Pos, rand: Rng, seed: int): (cs: seq<Pos>)
    ensures |cs| == MaxWanderAttempts
    ensures forall i :: 0 <= i < |cs| ==> cs[i] == Candidate(me, rand, seed, i + 1)
  {
    seq(MaxWanderAttempts, i requires 0 <= i => Candidate(me, rand, seed, i + 1))
  }

  /** The destination the retry loop settles on, trying attempts from `attempt`
      on among the candidates `cs`; the loop stops at the tenth candidate and
      does not use it. */
  function WanderFrom(me: Pos, passable: (int, int) -> bool, cs: seq<Pos>, attempt: nat): Option<Pos>
    requires attempt >= 1 && |cs| == MaxWanderAttempts
    decreases MaxWanderAttempts - attempt
  {
    if attempt >= MaxWanderAttempts then None
    else if Acceptable(passable, me, cs[attempt - 1]) then Some(cs[attempt - 1])
    else WanderFrom(me, passable, cs, attempt + 1)
  }

  /** The attempt whose candidate the retry loop accepts: one of `attempt`..9,
      acceptable, with the candidates of every earlier attempt rejected. */
  lemma {:induction false} WanderAttempt(me: Pos, passable: (int, int) -> bool, cs: seq<Pos>, attempt: nat)
    returns (j: nat)
    requires attempt >= 1 && |cs| == MaxWanderAttempts
    requires WanderFrom(me, passable, cs, attempt).Some?
    ensures attempt <= j < MaxWanderAttempts
    ensures WanderFrom(me, passable, cs, attempt) == Some(cs[j - 1])
    ensures Acceptable(passable, me, cs[j - 1])
    ensures forall i :: attempt - 1 <= i < j - 1 ==> !Acceptable(passable, me, cs[i])
    decreases MaxWanderAttempts - attempt
  {
    if Acceptable(passable, me, cs[attempt - 1]) {
      j := attempt;
    } else {
      j := WanderAttempt(me, passable, cs, attempt + 1);
    }
  }

  /** The loop gives up exactly when none of the candidates of attempts
      `attempt`..9 (entries `attempt - 1`..8) is acceptable: an acceptable
      tenth candidate is still thrown away. */
  lemma {:induction false} WanderGivesUp(me: Pos, passable: (int, int) -> bool, cs: seq<Pos>, attempt: nat)
    requires attempt >= 1 && |cs| == MaxWanderAttempts
    ensures WanderFrom(me, passable, cs, attempt).None?
        <==> forall i :: attempt - 1 <= i < MaxWanderAttempts - 1 ==> !Acceptable(passable, me, cs[i])
    decreases MaxWanderAttempts - attempt
  {
    if attempt < MaxWanderAttempts {
      WanderGivesUp(me, passable, cs, attempt + 1);
    }
  }

  /** A wander destination is a passable tile other than the current one, at
      most three tiles away on each axis, drawn on one of the attempts
      `attempt`..9. */
  lemma WanderDestination(me: Pos, passable: (int, int) -> bool, rand: Rng, seed: int, attempt: nat)
    requires attempt >= 1
    requires WanderFrom(me, passable, Candidates(me, rand, seed), attempt).Some?
    ensures var d := WanderFrom(me, passable, Candidates(me, rand, seed), attempt).value;
      && passable(d.x, d.y) && d != me
      && -3 <= d.x - me.x <= 3 && -3 <= d.y - me.y <= 3
      && exists j :: attempt <= j < MaxWanderAttempts && d == Candidate(me, rand, seed, j)
  {
    var cs := Candidates(me, rand, seed);
    var j := WanderAttempt(me, passable, cs, attempt);
    assert cs[j - 1] == Candidate(me, rand, seed, j);
  }

  /** The do-while retry loop of the wander branch: draw a candidate, stop at
      the first acceptable one or at the tenth attempt; only a candidate found
      before the tenth attempt becomes the destination. */
  method PickWanderDestination(me: Pos, passable: (int, int) -> bool, rand: Rng, seed: int)
    returns (dest: Option<Pos>)
    ensures dest == WanderFrom(me, passable, Candidates(me, rand, seed), 1)
  {
    ghost var cs := Candidates(me, rand, seed);
    var next := me;
    var its := 0;
    while true
      invariant 0 <= its < MaxWanderAttempts
      invariant WanderFrom(me, passable, cs, 1) == WanderFrom(me, passable, cs, its + 1)
      decreases MaxWanderAttempts - its
    {
      its := its + 1;
      next := Candidate(me, rand, seed, its);
      assert next == cs[its - 1];
      if !(its < MaxWanderAttempts && !Acceptable(passable, me, next)) {
        break;
      }
    }
    dest := if its < MaxWanderAttempts then Some(next) else None;
  }

  /** What one tick of `BasicMonsterBehaviour::update` decides. */
  datatype Decision =
    | Skip                      // the actor is dead
    | Engage(player: nat)       // target the roster entry at this index
    | Freeze                    // the nearest player is far away
    | Idle                      // in range, but no wander move this tick
    | Wander(dest: Option<Pos>) // the first draw allowed a wander: the counter resets

  /** The generator seed: counter (already incremented), actor id and current x. */
  function WanderSeed(ticks: nat, id: int, x: int): int {
    ticks + id + x
  }

  /** The decision for an actor at `me` with counter value `ticks` (already
      incremented this tick), given the roster positions `ps`. */
  function Decide(dead: bool, ps: seq<Pos>, me: Pos, id: int, ticks: nat, hasTarget: bool, moving: bool,
                  threshold: nat, passable: (int, int) -> bool, rand: Rng): Decision
    requires !dead ==> Nearest(ps, me).Some?
  {
    if dead then Skip
    else
      var k := Nearest(ps, me).value;
      var dist := SquaredDistance(ps[k], me);
      if dist <= EngageDistanceSquared then Engage(k)
      else if dist >= FreezeDistanceSquared then Freeze
      else WanderStep(me, id, ticks, hasTarget, moving, threshold, passable, rand)
  }

  /** The wander branch of the decision: only past the threshold, with no
      target and not moving, and then only when the first draw allows it. */
  function WanderStep(me: Pos, id: int, ticks: nat, hasTarget: bool, moving: bool,
                      threshold: nat, passable: (int, int) -> bool, rand: Rng): Decision
  {
    if ticks > threshold && !hasTarget && !moving then
      var seed := WanderSeed(ticks, id, me.x);
      if rand(seed, 0) % 100 > 80 then Wander(WanderFrom(me, passable, Candidates(me, rand, seed), 1)) else Idle
    else Idle
  }

  /** A dead actor decides nothing, whatever else holds. */
  lemma DeadActorsSkip(ps: seq<Pos>, me: Pos, id: int, ticks: nat, hasTarget: bool, moving: bool,
                       threshold: nat, passable: (int, int) -> bool, rand: Rng)
    ensures Decide(true, ps, me, id, ticks, hasTarget, moving, threshold, passable, rand) == Skip
  {
  }

  /** Engagement dominates: when any player is within five tiles, a live actor
      targets the nearest player, whatever its counter, target or movement. */
  lemma EngageDominates(ps: seq<Pos>, me: Pos, id: int, ticks: nat, hasTarget: bool, moving: bool,
                        threshold: nat, passable: (int, int) -> bool, rand: Rng, j: nat)
    requires j < |ps| && SquaredDistance(ps[j], me) <= EngageDistanceSquared
    ensures Nearest(ps, me).Some?
    ensures Decide(false, ps, me, id, ticks, hasTarget, moving, threshold, passable, rand)
         == Engage(Nearest(ps, me).value)
  {
    NearestIsEarliestMinimum(ps, me);
  }

  /** When every player is at least a hundred tiles away (but one is below the
      search bound), a live actor freezes. */
  lemma FreezeWhenAllFar(ps: seq<Pos>, me: Pos, id: int, ticks: nat, hasTarget: bool, moving: bool,
                         threshold: nat, passable: (int, int) -> bool, rand: Rng)
    requires Nearest(ps, me).Some?
    requires forall j :: 0 <= j < |ps| ==> SquaredDistance(ps[j], me) >= FreezeDistanceSquared
    ensures Decide(false, ps, me, id, ticks, hasTarget, moving, threshold, passable, rand) == Freeze
  {
  }

  /** A wander decision needs the counter above the threshold, no target, no
      movement in progress, the nearest player strictly between the two radii
      and a first draw above 80 modulo 100; any destination it picks is a
      passable tile other than the current one, at most three tiles away on
      each axis, taken on one of the attempts 1..9. */
  lemma WanderConditions(dead: bool, ps: seq<Pos>, me: Pos, id: int, ticks: nat, hasTarget: bool, moving: bool,
                         threshold: nat, passable: (int, int) -> bool, rand: Rng)
    requires !dead ==> Nearest(ps, me).Some?
    requires Decide(dead, ps, me, id, ticks, hasTarget, moving, threshold, passable, rand).Wander?
    ensures !dead && ticks > threshold && !hasTarget && !moving
    ensures EngageDistanceSquared < SquaredDistance(ps[Nearest(ps, me).value], me) < FreezeDistanceSquared
    ensures rand(WanderSeed(ticks, id, me.x), 0) % 100 > 80
    ensures var dest := Decide(dead, ps, me, id, ticks, hasTarget, moving, threshold, passable, rand).dest;
      dest.Some? ==>
        && passable(dest.value.x, dest.value.y) && dest.value != me
        && -3 <= dest.value.x - me.x <= 3 && -3 <= dest.value.y - me.y <= 3
        && exists j :: 1 <= j < MaxWanderAttempts && dest.value == Candidate(me, rand, WanderSeed(ticks, id, me.x), j)
  {
    var seed := WanderSeed(ticks, id, me.x);
    if WanderFrom(me, passable, Candidates(me, rand, seed), 1).Some? {
      WanderDestination(me, passable, rand, seed, 1);
    }
  }

  /** Wandering is deterministic in the counter, the actor id and the current
      x coordinate through their sum only: two actors whose seeds agree, at
      the same tile, on the same passability, pick the same outcome. */
  lemma WanderReproducible(me: Pos, passable: (int, int) -> bool, rand: Rng,
                           ticks: nat, id: int, ticks': nat, id': int)
    requires ticks + id == ticks' + id'
    ensures WanderFrom(me, passable, Candidates(me, rand, WanderSeed(ticks, id, me.x)), 1)
         == WanderFrom(me, passable, Candidates(me, rand, WanderSeed(ticks', id', me.x)), 1)
  {
    assert WanderSeed(ticks, id, me.x) == WanderSeed(ticks', id', me.x);
  }

  /** The wander branch of `update`: whether the first draw allowed a wander
      (the counter then resets) and the destination picked, if any. */
  method WanderMove(me: Pos, id: int, ticks: nat, hasTarget: bool, moving: bool,
                    threshold: nat, passable: (int, int) -> bool, rand: Rng)
    returns (reset: bool, dest: Option<Pos>)
    ensures reset == WanderStep(me, id, ticks, hasTarget, moving, threshold, passable, rand).Wander?
    ensures dest == if reset then WanderStep(me, id, ticks, hasTarget, moving, threshold, passable, rand).dest else None
  {
    reset, dest := false, None;
    if ticks > threshold && !hasTarget && !moving {
      var seed := WanderSeed(ticks, id, me.x);
      if rand(seed, 0) % 100 > 80 {
        dest := PickWanderDestination(me, passable, rand, seed);
        reset := true;
      }
    }
  }

  /** `BasicMonsterBehaviour`: one counter, and a back-reference to its actor. */
  class BasicMonsterBehaviour {
    var ticksSinceLastAction: nat
    var actor: Actor

    /** The loader constructor: reads the counter back from the stream. */
    constructor Load(stream: seq<Field>, actor: Actor)
      requires DecodeTicks(stream).Some?
      ensures ticksSinceLastAction == DecodeTicks(stream).value.0
      ensures this.actor == actor
    {
      ticksSinceLastAction := stream[0].t;
      this.actor := actor;
    }

    /** Writes exactly the counter. */
    method Save() returns (stream: seq<Field>)
      ensures DecodeTicks(stream) == Some((ticksSinceLastAction, []))
    {
      stream := EncodeTicks(ticksSinceLastAction);
      assert stream[1..] == [];
    }

    /** One tick: bump the counter, then run the priority chain. */
    method Update(players: seq<Actor>, threshold: nat, passable: (int, int) -> bool, rand: Rng)
      requires !actor.dead ==> Nearest(Positions(players), actor.pos).Some?
      modifies this`ticksSinceLastAction, actor`target, actor`destination
      ensures
        var d := old(Decide(actor.dead, Positions(players), actor.pos, actor.id,
                            ticksSinceLastAction + 1, actor.target != NoTarget, actor.moving,
                            threshold, passable, rand));
        && ticksSinceLastAction == (if d.Wander? then 0 else old(ticksSinceLastAction) + 1)
        && actor.target == (if d.Engage? then ActorTarget(players[d.player]) else old(actor.target))
        && actor.destination == (if d.Wander? && d.dest.Some? then d.dest.value else old(actor.destination))
    {
      // The counter is kept in a local and stored once at the end; the
      // code increments the field first, which reads the same.
      var ticks := ticksSinceLastAction + 1;
      if !actor.dead {
        var nearest := FindNearestPlayer(players, actor);
        var dist := SquaredDistance(nearest.value.pos, actor.pos);

        if dist <= EngageDistanceSquared {
          actor.target := ActorTarget(nearest.value);
        } else if dist < FreezeDistanceSquared {
          var reset, dest := WanderMove(actor.pos, actor.id, ticks, actor.target != NoTarget,
                                        actor.moving, threshold, passable, rand);
          if dest.Some? {
            actor.destination := dest.value;
          }
          if reset {
            ticks := 0;
          }
        }
      }
      ticksSinceLastAction := ticks;
    }
  }
}
