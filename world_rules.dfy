/** The pure rules of the world: the music table, the hit test, which levels a
    tick updates, roster ordering, the level store's lookup, the mouse-input
    flag machine, the hover dedup and the actor search by id. */
module WorldRules {
  import opened Types
  import opened KeyOrder

  // ---------------------------------------------------------------- music

  /** `playLevelMusic`: the track for a level index; an index outside 0..16 plays nothing. */
  function LevelMusic(level: nat): Option<string> {
    if level == 0 then Some("music/dtowne.wav")
    else if level <= 4 then Some("music/dlvla.wav")
    else if level <= 8 then Some("music/dlvlb.wav")
    else if level <= 12 then Some("music/dlvlc.wav")
    else if level <= 16 then Some("music/dlvld.wav")
    else None
  }

  /** The music table read as a rule: the town has its own track, and dungeon
      levels share one track per band of four (1-4 a, 5-8 b, 9-12 c, 13-16 d). */
  lemma LevelMusicBands(level: nat)
    ensures level == 0 ==> LevelMusic(level) == Some("music/dtowne.wav")
    ensures 1 <= level <= 16 ==> LevelMusic(level) == Some("music/dlvl" + ["abcd"[(level - 1) / 4]] + ".wav")
    ensures level > 16 ==> LevelMusic(level).None?
  {
    if 1 <= level <= 16 {
      var band := (level - 1) / 4;
      if level <= 4 {
        assert band == 0 && "abcd"[band] == 'a';
        assert "music/dlvl" + ['a'] + ".wav" == "music/dlvla.wav";
      } else if level <= 8 {
        assert band == 1 && "abcd"[band] == 'b';
        assert "music/dlvl" + ['b'] + ".wav" == "music/dlvlb.wav";
      } else if level <= 12 {
        assert band == 2 && "abcd"[band] == 'c';
        assert "music/dlvl" + ['c'] + ".wav" == "music/dlvlc.wav";
      } else {
        assert band == 3 && "abcd"[band] == 'd';
        assert "music/dlvl" + ['d'] + ".wav" == "music/dlvld.wav";
      }
    }
  }

  // ------------------------------------------------------------- hit test

  /** `actorStayingAt`: the actor on tile (x, y) of `level`, unless the tile is
      past the level's width or height, or the actor is dead or is the current player. */
  function ActorStayingAt(level: GameLevel, current: Actor, x: int, y: int): Option<Actor>
    reads level.actorAt.Values
  {
    if x >= level.width || y >= level.height then None
    else if Pos(x, y) !in level.actorAt then None
    else
      var a := level.actorAt[Pos(x, y)];
      if !a.dead && a != current then Some(a) else None
  }

  /** `targetedActor` for the tile under the pointer. */
  function TargetedActor(level: GameLevel, current: Actor, tile: Tile): Option<Actor>
    reads level.actorAt.Values
  {
    var here := ActorStayingAt(level, current, tile.x, tile.y);
    var behind := ActorStayingAt(level, current, tile.x + 1, tile.y + 1);
    var right := ActorStayingAt(level, current, tile.x + 1, tile.y);
    var left := ActorStayingAt(level, current, tile.x, tile.y + 1);
    if here.Some? then here
    else if behind.Some? then behind
    else if tile.half == RightHalf && right.Some? then right
    else if tile.half == LeftHalf && left.Some? then left
    else None
  }

  /** The tiles the hit test probes, in priority order: the tile itself, the
      one diagonally behind it, then the lateral neighbour on the hit half. */
  function ProbedTiles(tile: Tile): seq<Pos> {
    [Pos(tile.x, tile.y), Pos(tile.x + 1, tile.y + 1)]
      + (if tile.half == RightHalf then [Pos(tile.x + 1, tile.y)] else [])
      + (if tile.half == LeftHalf then [Pos(tile.x, tile.y + 1)] else [])
  }

  /** The first of `tiles` on which a targetable actor stands. */
  function FirstHit(level: GameLevel, current: Actor, tiles: seq<Pos>): Option<Actor>
    reads level.actorAt.Values
  {
    if tiles == [] then None
    else
      var a := ActorStayingAt(level, current, tiles[0].x, tiles[0].y);
      if a.Some? then a else FirstHit(level, current, tiles[1..])
  }

  /** `targetedActor` stops at the first hit along `ProbedTiles`. */
  lemma TargetedActorProbesInOrder(level: GameLevel, current: Actor, tile: Tile)
    ensures TargetedActor(level, current, tile) == FirstHit(level, current, ProbedTiles(tile))
  {
    var side := if tile.half == RightHalf then Pos(tile.x + 1, tile.y) else Pos(tile.x, tile.y + 1);
    var ts := [Pos(tile.x, tile.y), Pos(tile.x + 1, tile.y + 1), side];
    assert ProbedTiles(tile) == ts;
    assert ts[1..] == [Pos(tile.x + 1, tile.y + 1), side];
    assert ts[1..][1..] == [side];
    assert ts[1..][1..][1..] == [];
    assert FirstHit(level, current, [side]) == ActorStayingAt(level, current, side.x, side.y);
  }

  /** What a hit means: a live actor other than the current player, standing
      inside the level's width and height on a probed tile, with no hit on any
      earlier probed tile; no hit means no probed tile qualifies. */
  lemma {:induction false} FirstHitMeaning(level: GameLevel, current: Actor, tiles: seq<Pos>)
    ensures FirstHit(level, current, tiles).None?
        <==> forall i :: 0 <= i < |tiles| ==> ActorStayingAt(level, current, tiles[i].x, tiles[i].y).None?
    ensures FirstHit(level, current, tiles).Some? ==>
      var a := FirstHit(level, current, tiles).value;
      && !a.dead && a != current
      && exists i :: 0 <= i < |tiles|
           && tiles[i] in level.actorAt && level.actorAt[tiles[i]] == a
           && tiles[i].x < level.width && tiles[i].y < level.height
           && forall j :: 0 <= j < i ==> ActorStayingAt(level, current, tiles[j].x, tiles[j].y).None?
  {
    if tiles != [] {
      FirstHitMeaning(level, current, tiles[1..]);
      if ActorStayingAt(level, current, tiles[0].x, tiles[0].y).None? && FirstHit(level, current, tiles[1..]).Some? {
        var a := FirstHit(level, current, tiles).value;
        var i :| 0 <= i < |tiles[1..]|
           && tiles[1..][i] in level.actorAt && level.actorAt[tiles[1..][i]] == a
           && tiles[1..][i].x < level.width && tiles[1..][i].y < level.height
           && forall j :: 0 <= j < i ==> ActorStayingAt(level, current, tiles[1..][j].x, tiles[1..][j].y).None?;
        assert tiles[i + 1] == tiles[1..][i];
        assert forall j :: 1 <= j < i + 1 ==> tiles[j] == tiles[1..][j - 1];
      }
      assert forall i :: 1 <= i < |tiles| ==> tiles[i] == tiles[1..][i - 1];
    }
  }

  /** A dead actor on the pointed tile is skipped, and a live one diagonally
      behind it is still found. */
  lemma DeadInFrontLiveBehind(level: GameLevel, current: Actor, tile: Tile, dead: Actor, live: Actor)
    requires tile.x + 1 < level.width && tile.y + 1 < level.height
    requires Pos(tile.x, tile.y) in level.actorAt && level.actorAt[Pos(tile.x, tile.y)] == dead && dead.dead
    requires Pos(tile.x + 1, tile.y + 1) in level.actorAt && level.actorAt[Pos(tile.x + 1, tile.y + 1)] == live
    requires !live.dead && live != current
    ensures TargetedActor(level, current, tile) == Some(live)
  {
  }

  /** `targetedItem`: the item placed on the pointed tile, with that tile. The
      ensures only unpack the definition for callers. */
  function TargetedItem(level: GameLevel, tile: Tile): (r: Option<(Pos, Item)>)
    ensures r.Some? <==> Pos(tile.x, tile.y) in level.items
    ensures r.Some? ==> r.value.0 == Pos(tile.x, tile.y) && r.value.1 == level.items[r.value.0]
  {
    var p := Pos(tile.x, tile.y);
    if p in level.items then Some((p, level.items[p])) else None
  }

  // ------------------------------------------------------ per-tick update

  /** The level-store keys a tick updates, given each registered player's
      level in roster order: each level once, when first seen, skipping players on no level. */
  function FirstAppearances(s: seq<Option<nat>>): seq<nat> {
    if s == [] then []
    else
      var r := FirstAppearances(s[..|s| - 1]);
      var last := s[|s| - 1];
      if last.Some? && last.value !in r then r + [last.value] else r
  }

  /** The position where `x` first occurs in `s`. */
  function FirstOccurrence<T(==)>(s: seq<T>, x: T): (f: nat)
    requires x in s
    ensures f < |s| && s[f] == x && forall q :: 0 <= q < f ==> s[q] != x
  {
    if s[0] == x then 0 else 1 + FirstOccurrence(s[1..], x)
  }

  lemma {:induction false} FirstOccurrenceInPrefix<T>(s: seq<T>, n: nat, x: T)
    requires n <= |s| && x in s[..n]
    ensures FirstOccurrence(s, x) == FirstOccurrence(s[..n], x)
  {
    assert s[..n][0] == s[0];
    if s[0] != x {
      assert s[..n][1..] == s[1..][..n - 1];
      FirstOccurrenceInPrefix(s[1..], n - 1, x);
    }
  }

  /** Every level hosting a registered player is updated, no other level is,
      none twice, and in the order in which the roster first reaches them. */
  lemma {:induction false} FirstAppearancesMeaning(s: seq<Option<nat>>)
    ensures forall k :: k in FirstAppearances(s) <==> Some(k) in s
    ensures forall i, j :: 0 <= i < j < |FirstAppearances(s)| ==> FirstAppearances(s)[i] != FirstAppearances(s)[j]
    ensures forall i, j :: 0 <= i < j < |FirstAppearances(s)| ==>
      FirstOccurrence(s, Some(FirstAppearances(s)[i])) < FirstOccurrence(s, Some(FirstAppearances(s)[j]))
    decreases |s|
  {
    if s != [] {
      var n := |s| - 1;
      var init := s[..n];
      FirstAppearancesMeaning(init);
      var r := FirstAppearances(init);
      assert s == init + [s[n]];
      forall k | k in r ensures FirstOccurrence(s, Some(k)) == FirstOccurrence(init, Some(k)) {
        FirstOccurrenceInPrefix(s, n, Some(k));
      }
      if s[n].Some? && s[n].value !in r {
        var v := s[n].value;
        assert Some(v) !in init;
        assert FirstOccurrence(s, Some(v)) == n;
        forall k | k in r ensures FirstOccurrence(s, Some(k)) < n {
          FirstOccurrenceInPrefix(s, n, Some(k));
        }
      }
    }
  }

  // --------------------------------------------------------------- roster

  /** The roster order: descending by id. */
  predicate DescendingById(ps: seq<Actor>) {
    forall i, j :: 0 <= i < j < |ps| ==> ps[i].id >= ps[j].id
  }

  /** `std::upper_bound` with `lhs->getId() > rhs->getId()`: the first position
      whose id is smaller than `id`, i.e. just after every id at least `id`. */
  function UpperBound(ps: seq<Actor>, id: int): (k: nat)
    ensures k <= |ps|
    ensures forall j :: 0 <= j < k ==> ps[j].id >= id
    ensures DescendingById(ps) ==> forall j :: k <= j < |ps| ==> ps[j].id < id
  {
    if ps == [] || ps[0].id < id then 0 else 1 + UpperBound(ps[1..], id)
  }

  /** `registerPlayer`: insert at the upper bound. */
  function InsertPlayer(ps: seq<Actor>, p: Actor): seq<Actor> {
    var k := UpperBound(ps, p.id);
    ps[..k] + [p] + ps[k..]
  }

  /** Registering keeps the roster descending by id, adds exactly one
      occurrence of the player and places it after every equal id. */
  lemma InsertPlayerKeepsOrder(ps: seq<Actor>, p: Actor)
    requires DescendingById(ps)
    ensures DescendingById(InsertPlayer(ps, p))
    ensures multiset(InsertPlayer(ps, p)) == multiset(ps) + multiset{p}
    ensures var k := UpperBound(ps, p.id);
      && InsertPlayer(ps, p)[k] == p
      && (forall j :: 0 <= j < k ==> InsertPlayer(ps, p)[j].id >= p.id)
      && (forall j :: k < j < |ps| + 1 ==> InsertPlayer(ps, p)[j].id < p.id)
  {
    var k := UpperBound(ps, p.id);
    InsertedAt(ps, p, k);
    InsertedSorted(ps, p, k);
    InsertedMultiset(ps, p, k);
  }

  lemma InsertedSorted(ps: seq<Actor>, p: Actor, k: nat)
    requires DescendingById(ps) && k <= |ps|
    requires forall j :: 0 <= j < k ==> ps[j].id >= p.id
    requires forall j :: k <= j < |ps| ==> ps[j].id < p.id
    ensures DescendingById(ps[..k] + [p] + ps[k..])
  {
    var r := ps[..k] + [p] + ps[k..];
    InsertedAt(ps, p, k);
    forall i, j | 0 <= i < j < |r| ensures r[i].id >= r[j].id {
      var i' := if i <= k then i else i - 1;
      var j' := if j <= k then j else j - 1;
      if i != k && j != k {
        assert r[i] == ps[i'] && r[j] == ps[j'] && i' < j';
      }
    }
  }

  lemma InsertedMultiset(ps: seq<Actor>, p: Actor, k: nat)
    requires k <= |ps|
    ensures multiset(ps[..k] + [p] + ps[k..]) == multiset(ps) + multiset{p}
  {
    assert ps == ps[..k] + ps[k..];
  }

  /** Where each player of the roster ends up after inserting `p` at `k`. */
  lemma InsertedAt(ps: seq<Actor>, p: Actor, k: nat)
    requires k <= |ps|
    ensures var r := ps[..k] + [p] + ps[k..];
      && |r| == |ps| + 1
      && r[k] == p
      && (forall j :: 0 <= j < k ==> r[j] == ps[j])
      && (forall j :: k < j < |r| ==> r[j] == ps[j - 1])
  {
  }

  /** Inserting players with ids 5, 1, 9, 3 in that order yields ids 9, 5, 3, 1. */
  lemma RosterExample(a5: Actor, a1: Actor, a9: Actor, a3: Actor)
    requires a5.id == 5 && a1.id == 1 && a9.id == 9 && a3.id == 3
    ensures InsertPlayer(InsertPlayer(InsertPlayer(InsertPlayer([], a5), a1), a9), a3) == [a9, a5, a3, a1]
  {
    assert InsertPlayer([], a5) == [a5];
    assert InsertPlayer([a5], a1) == [a5, a1] by {
      assert UpperBound([a5], 1) == 1;
    }
    assert InsertPlayer([a5, a1], a9) == [a9, a5, a1] by {
      assert UpperBound([a5, a1], 9) == 0;
    }
    assert InsertPlayer([a9, a5, a1], a3) == [a9, a5, a3, a1] by {
      var r := [a9, a5, a1];
      assert r[1..] == [a5, a1] && r[1..][1..] == [a1];
      assert UpperBound([a1], 3) == 0;
      assert UpperBound(r, 3) == 2;
      assert r[..2] == [a9, a5] && r[2..] == [a1];
    }
  }

  /** `std::find`: the first position holding `p`. */
  function FirstIndexOf(ps: seq<Actor>, p: Actor): (k: nat)
    requires p in ps
    ensures k < |ps| && ps[k] == p && forall j :: 0 <= j < k ==> ps[j] != p
  {
    FirstOccurrence(ps, p)
  }

  /** `deregisterPlayer`: erase the first occurrence. */
  function RemovePlayer(ps: seq<Actor>, p: Actor): seq<Actor>
    requires p in ps
  {
    var k := FirstIndexOf(ps, p);
    ps[..k] + ps[k + 1..]
  }

  /** Deregistering removes one occurrence of the player and keeps the remaining
      players in their order, so the roster stays descending by id. */
  lemma RemovePlayerKeepsOrder(ps: seq<Actor>, p: Actor)
    requires p in ps
    ensures multiset(RemovePlayer(ps, p)) == multiset(ps) - multiset{p}
    ensures DescendingById(ps) ==> DescendingById(RemovePlayer(ps, p))
  {
    var k := FirstIndexOf(ps, p);
    var r := RemovePlayer(ps, p);
    assert ps == ps[..k] + [p] + ps[k + 1..];
    assert multiset(ps) == multiset(ps[..k]) + multiset{p} + multiset(ps[k + 1..]);
    assert forall j :: 0 <= j < k ==> r[j] == ps[j];
    assert forall j :: k <= j < |r| ==> r[j] == ps[j + 1];
    if DescendingById(ps) {
      forall i, j | 0 <= i < j < |r| ensures r[i].id >= r[j].id {
        var i' := if i < k then i else i + 1;
        var j' := if j < k then j else j + 1;
        assert r[i] == ps[i'] && r[j] == ps[j'] && i' < j';
      }
    }
  }

  // ---------------------------------------------------------- level store

  /** The level generator: `generate(width, height, levelIndex, upLink, downLink)`. */
  type Generator = (int, int, int, int, int) -> GameLevel

  /** `getLevel`: a missing key gives nothing, a reserved slot is generated and
      cached, a filled slot is returned as it is. Yields the level and the new store. */
  function LookupLevel(m: map<nat, Option<GameLevel>>, i: nat, generate: Generator)
    : (Option<GameLevel>, map<nat, Option<GameLevel>>)
  {
    if i !in m then (None, m)
    else if m[i].Some? then (m[i], m)
    else
      var l := generate(100, 100, i, i - 1, i + 1);
      (Some(l), m[i := Some(l)])
  }

  /** A lookup finds a level exactly when the key exists, never changes the
      key set, and changes no slot other than the one looked up, which it only
      fills when it was reserved. */
  lemma LookupLevelFrame(m: map<nat, Option<GameLevel>>, i: nat, generate: Generator)
    ensures LookupLevel(m, i, generate).0.Some? <==> i in m
    ensures LookupLevel(m, i, generate).1.Keys == m.Keys
    ensures forall k :: k in m && (k != i || m[k].Some?) ==> LookupLevel(m, i, generate).1[k] == m[k]
    ensures i in m ==> LookupLevel(m, i, generate).1[i] == LookupLevel(m, i, generate).0
  {
  }

  /** Looking a level up twice is the same as once: the second lookup returns
      the cached level and leaves the store as the first left it. */
  lemma LookupLevelIdempotent(m: map<nat, Option<GameLevel>>, i: nat, generate: Generator)
    ensures var (l, m') := LookupLevel(m, i, generate); LookupLevel(m', i, generate) == (l, m')
  {
  }

  /** A level stored with `insertLevel` is what the next lookup of that index
      returns, and the lookup then leaves the store as it is. */
  lemma InsertedLevelIsFound(m: map<nat, Option<GameLevel>>, i: nat, level: GameLevel, generate: Generator)
    ensures LookupLevel(m[i := Some(level)], i, generate) == (Some(level), m[i := Some(level)])
  {
  }

  /** Storing a reserved slot makes the next lookup generate that level from
      its index and its neighbours' indices, on a 100 by 100 map. */
  lemma ReservedLevelIsGenerated(m: map<nat, Option<GameLevel>>, i: nat, generate: Generator)
    ensures LookupLevel(m[i := None], i, generate).0 == Some(generate(100, 100, i, i - 1, i + 1))
  {
  }

  /** The hand-built town: index 0, the way down (the cathedral entrance) at
      (25, 29), the arrival point at (75, 68), no level above it and level 1
      below. */
  function TownLevel(width: int, height: int): GameLevel {
    GameLevel(0, width, height, Pos(75, 68), Pos(25, 29), -1, 1, map[], [], map[], NothingHovered)
  }

  /** The level indices below `n`: the keys `generateLevels` leaves in an
      empty store when `n` is 17. */
  ghost function KeyRange(n: nat): (r: set<nat>)
    ensures forall k: int :: k in r <==> 0 <= k < n
    ensures |r| == n
  {
    if n == 0 then {} else
      var r := KeyRange(n - 1);
      assert n - 1 !in r;
      assert |r + {n - 1}| == |r| + 1;
      assert forall k :: k in r + {n - 1} <==> k in r || k == n - 1;
      r + {n - 1}
  }

  // -------------------------------------------------- mouse flag machine

  /** The three input flags of the world. */
  datatype MouseFlags = MouseFlags(skipNextMousePress: bool, targetLock: bool, simpleMove: bool)

  /** What a mouse press asks the current player to do. */
  datatype Intent =
    | NoIntent
    | DropCursorItem(at: Pos)
    | TargetActor(actor: Actor)
    | TargetItem(action: ItemAction, tile: Pos)
    | MoveTo(dest: Pos)

  /** `onMouseDown` on the flags, given what lies under the pointer: whether
      the cursor holds an item, the targeted actor and item, whether the
      inventory is shown, the clicked tile and the shifted tile an item drops on. */
  function MouseDown(f: MouseFlags, hasCursorItem: bool, actorHit: Option<Actor>, itemHit: Option<Pos>,
                     inventoryShown: bool, clicked: Pos, dropAt: Pos): (MouseFlags, Intent)
  {
    if f.skipNextMousePress then (f, NoIntent)
    else
      var locked := f.(targetLock := true);
      if !f.targetLock && hasCursorItem then (locked, DropCursorItem(dropAt))
      else if !f.targetLock && actorHit.Some? then (locked, TargetActor(actorHit.value))
      else if !f.targetLock && itemHit.Some? then
        (locked, TargetItem(if inventoryShown then ToCursor else AutoEquip, itemHit.value))
      else if !f.targetLock || f.simpleMove then (locked.(simpleMove := true), MoveTo(clicked))
      else (locked, NoIntent)
  }

  /** `onMouseRelease`: all three flags cleared. */
  function MouseRelease(f: MouseFlags): MouseFlags {
    MouseFlags(false, false, false)
  }

  /** Skipping a press changes nothing; any other press leaves the target locked. */
  lemma MouseDownLocks(f: MouseFlags, hasCursorItem: bool, actorHit: Option<Actor>, itemHit: Option<Pos>,
                       inventoryShown: bool, clicked: Pos, dropAt: Pos)
    ensures var (f', i) := MouseDown(f, hasCursorItem, actorHit, itemHit, inventoryShown, clicked, dropAt);
      && (f.skipNextMousePress ==> f' == f && i == NoIntent)
      && (!f.skipNextMousePress ==> f'.targetLock && !f'.skipNextMousePress)
  {
  }

  /** A press that was not locked picks, in order: drop the cursor item, target
      the actor, target the item, move to the clicked tile. */
  lemma UnlockedPressPriority(f: MouseFlags, hasCursorItem: bool, actorHit: Option<Actor>, itemHit: Option<Pos>,
                              inventoryShown: bool, clicked: Pos, dropAt: Pos)
    requires !f.skipNextMousePress && !f.targetLock
    ensures var i := MouseDown(f, hasCursorItem, actorHit, itemHit, inventoryShown, clicked, dropAt).1;
      && (hasCursorItem ==> i == DropCursorItem(dropAt))
      && (!hasCursorItem && actorHit.Some? ==> i == TargetActor(actorHit.value))
      && (!hasCursorItem && actorHit.None? && itemHit.Some? ==> i.TargetItem? && i.tile == itemHit.value)
      && (!hasCursorItem && actorHit.None? && itemHit.None? ==> i == MoveTo(clicked))
  {
  }

  /** A press while locked can only move, and only when `simpleMove` is set. */
  lemma LockedPressOnlyMoves(f: MouseFlags, hasCursorItem: bool, actorHit: Option<Actor>, itemHit: Option<Pos>,
                             inventoryShown: bool, clicked: Pos, dropAt: Pos)
    requires !f.skipNextMousePress && f.targetLock
    ensures MouseDown(f, hasCursorItem, actorHit, itemHit, inventoryShown, clicked, dropAt).1
         == if f.simpleMove then MoveTo(clicked) else NoIntent
  {
  }

  /** Only a move sets `simpleMove`; no press clears it. */
  lemma MoveSetsSimpleMove(f: MouseFlags, hasCursorItem: bool, actorHit: Option<Actor>, itemHit: Option<Pos>,
                           inventoryShown: bool, clicked: Pos, dropAt: Pos)
    ensures var (f', i) := MouseDown(f, hasCursorItem, actorHit, itemHit, inventoryShown, clicked, dropAt);
      f'.simpleMove == (f.simpleMove || i.MoveTo?)
  {
  }

  /** Holding the button after a press that targeted something: whatever the
      flags were before the release, no later press retargets or moves until
      the button is released again. */
  lemma HeldTargetStaysPut(f0: MouseFlags, hasCursorItem: bool, actorHit: Option<Actor>, itemHit: Option<Pos>,
                           inventoryShown: bool, clicked: Pos, dropAt: Pos,
                           hasCursorItem': bool, actorHit': Option<Actor>, itemHit': Option<Pos>,
                           inventoryShown': bool, clicked': Pos, dropAt': Pos)
    requires actorHit.Some?
    ensures var (f, i) := MouseDown(MouseRelease(f0), hasCursorItem, actorHit, itemHit,
                                    inventoryShown, clicked, dropAt);
      MouseDown(f, hasCursorItem', actorHit', itemHit', inventoryShown', clicked', dropAt').1 == NoIntent
  {
  }

  /** Holding the button after a press that moved: every later press keeps
      moving to the tile under the pointer, whatever lies there. */
  lemma HeldMoveKeepsMoving(f0: MouseFlags, inventoryShown: bool, clicked: Pos, dropAt: Pos,
                            hasCursorItem': bool, actorHit': Option<Actor>, itemHit': Option<Pos>,
                            inventoryShown': bool, clicked': Pos, dropAt': Pos)
    ensures var (f, i) := MouseDown(MouseRelease(f0), false, None, None, inventoryShown, clicked, dropAt);
      && i == MoveTo(clicked)
      && MouseDown(f, hasCursorItem', actorHit', itemHit', inventoryShown', clicked', dropAt').1 == MoveTo(clicked')
  {
  }

  // ---------------------------------------------------------------- hover

  /** `updateHover` on the current level's hover state: the new state and the
      description texts set, in order. The hover setters report a change
      exactly when the new hover target differs from the cached one. */
  function Hover(h: HoverState, cursorItem: Option<Item>, actorHit: Option<Actor>, itemHit: Option<(Pos, Item)>)
    : (HoverState, seq<string>)
  {
    var nothing := if h != NothingHovered then [""] else [];
    if cursorItem.Some? then (NothingHovered, [cursorItem.value.name] + nothing)
    else if actorHit.Some? then
      var n := ActorHovered(actorHit.value.id);
      (n, if h != n then [actorHit.value.name] else [])
    else if itemHit.Some? then
      var n := ItemHovered(itemHit.value.0);
      (n, if h != n then [itemHit.value.1.name] else [])
    else (NothingHovered, nothing)
  }

  /** Without an item on the cursor, the description fires exactly when the
      hover target changes, and then once. */
  lemma HoverFiresOnChange(h: HoverState, actorHit: Option<Actor>, itemHit: Option<(Pos, Item)>)
    ensures var (h', texts) := Hover(h, None, actorHit, itemHit);
      && (texts != [] <==> h' != h)
      && |texts| <= 1
  {
  }

  /** Repeating an unchanged hover does not fire the description again. */
  lemma HoverDedup(h: HoverState, actorHit: Option<Actor>, itemHit: Option<(Pos, Item)>)
    ensures var (h', _) := Hover(h, None, actorHit, itemHit);
      Hover(h', None, actorHit, itemHit) == (h', [])
  {
  }

  /** An item on the cursor always shows its own name, and clears any hover. */
  lemma HoverWithCursorItem(h: HoverState, item: Item, actorHit: Option<Actor>, itemHit: Option<(Pos, Item)>)
    ensures var (h', texts) := Hover(h, Some(item), actorHit, itemHit);
      && h' == NothingHovered
      && texts == (if h == NothingHovered then [item.name] else [item.name, ""])
  {
  }

  // ------------------------------------------------------- actor by id

  /** `GameLevel::getActorById`: the first of the level's actors with that id. */
  function FindActor(actors: seq<Actor>, id: int): (r: Option<Actor>)
    ensures r.Some? ==> r.value in actors && r.value.id == id
    ensures r.None? <==> forall a :: a in actors ==> a.id != id
  {
    if actors == [] then None
    else if actors[0].id == id then Some(actors[0])
    else FindActor(actors[1..], id)
  }

  /** `getActorById` walking the given keys in order: the first filled level
      holding an actor with that id answers. */
  function ActorByIdIn(m: map<nat, Option<GameLevel>>, keys: seq<nat>, id: int): Option<Actor>
    requires forall k :: k in keys ==> k in m
  {
    if keys == [] then None
    else
      var slot := m[keys[0]];
      if slot.Some? && FindActor(slot.value.actors, id).Some? then FindActor(slot.value.actors, id)
      else ActorByIdIn(m, keys[1..], id)
  }

  /** `getActorById` over the whole store, in ascending key order. */
  ghost function ActorById(m: map<nat, Option<GameLevel>>, id: int): Option<Actor> {
    ActorByIdIn(m, Ascending(m.Keys), id)
  }

  /** The search finds an actor carrying the id on some generated level, and
      finds nothing exactly when no generated level holds such an actor. */
  lemma {:induction false} ActorByIdInMeaning(m: map<nat, Option<GameLevel>>, keys: seq<nat>, id: int)
    requires forall k :: k in keys ==> k in m
    ensures var r := ActorByIdIn(m, keys, id);
      && (r.Some? ==> r.value.id == id && exists k :: k in keys && m[k].Some? && r.value in m[k].value.actors)
      && (r.None? <==> forall k, a :: k in keys && m[k].Some? && a in m[k].value.actors ==> a.id != id)
  {
    if keys != [] {
      ActorByIdInMeaning(m, keys[1..], id);
      assert forall k :: k in keys <==> k == keys[0] || k in keys[1..];
    }
  }

  lemma ActorByIdMeaning(m: map<nat, Option<GameLevel>>, id: int)
    ensures var r := ActorById(m, id);
      && (r.Some? ==> r.value.id == id && exists k :: k in m && m[k].Some? && r.value in m[k].value.actors)
      && (r.None? <==> forall k, a :: k in m && m[k].Some? && a in m[k].value.actors ==> a.id != id)
  {
    ActorByIdInMeaning(m, Ascending(m.Keys), id);
  }
}
