/** The world object: the level store, the player roster, the current player,
    the tick counter, the next free actor id and the three mouse-input flags,
    updated in place by its methods. */
module FaWorld {
  import opened Types
  import opened KeyOrder
  import opened SaveStream
  import opened WorldRules

  /** The classes the object-id mapper can rebuild from a save. */
  datatype TypeTag = ActorTag | PlayerTag | NullBehaviourTag | BasicMonsterTag

  /** The level of each player, in roster order. */
  function PlayerLevels(ps: seq<Actor>): (r: seq<Option<nat>>)
    reads ps
    ensures |r| == |ps| && forall i :: 0 <= i < |ps| ==> r[i] == ps[i].level
  {
    if ps == [] then [] else PlayerLevels(ps[..|ps| - 1]) + [ps[|ps| - 1].level]
  }

  /** An optional actor as the pointer the code hands back (null for none). */
  function AsPointer(a: Option<Actor>): Actor? {
    if a.Some? then a.value else null
  }

  /** The tile of a targeted placed item, if any. */
  function PlacedTile(item: Option<(Pos, Item)>): Option<Pos> {
    if item.Some? then Some(item.value.0) else None
  }

  class World {
    var levels: map<nat, Option<GameLevel>>
    var players: seq<Actor>
    var currentPlayer: Actor?
    var ticksPassed: nat
    var nextId: int
    var targetLock: bool
    var simpleMove: bool
    var skipNextMousePress: bool
    var registered: seq<TypeTag>

    /** The current player stands on a generated level of the store. */
    predicate HasCurrentLevel()
      reads this, currentPlayer
    {
      && currentPlayer != null
      && currentPlayer.level.Some?
      && currentPlayer.level.value in levels
      && levels[currentPlayer.level.value].Some?
    }

    /** `getCurrentLevel`. */
    function CurrentLevel(): GameLevel
      reads this, currentPlayer
      requires HasCurrentLevel()
    {
      levels[currentPlayer.level.value].value
    }

    function Flags(): MouseFlags
      reads this
    {
      MouseFlags(skipNextMousePress, targetLock, simpleMove)
    }

    /** `World(exe)`: an empty world with the four rebuildable classes registered. */
    constructor ()
      ensures levels == map[] && players == [] && currentPlayer == null
      ensures ticksPassed == 0 && nextId == 0
      ensures !targetLock && !simpleMove && !skipNextMousePress
      ensures registered == [ActorTag, PlayerTag, NullBehaviourTag, BasicMonsterTag]
    {
      levels, players, currentPlayer := map[], [], null;
      ticksPassed, nextId := 0, 0;
      targetLock, simpleMove, skipNextMousePress := false, false, false;
      registered := [ActorTag, PlayerTag, NullBehaviourTag, BasicMonsterTag];
    }

    /** `World(loader, exe)`: reads the level count, then each entry (index,
        presence flag, level body if present), then the current player's id and
        the next actor id, and looks the current player up by that id. */
    constructor Load(stream: seq<Field>)
      requires DecodeWorld(stream).Some?
      ensures levels == DecodeWorld(stream).value.levels
      ensures nextId == DecodeWorld(stream).value.nextId
      ensures currentPlayer == AsPointer(ActorById(levels, DecodeWorld(stream).value.playerId))
      ensures players == [] && ticksPassed == 0
      ensures !targetLock && !simpleMove && !skipNextMousePress
      ensures registered == [ActorTag, PlayerTag, NullBehaviourTag, BasicMonsterTag]
    {
      players, currentPlayer, ticksPassed := [], null, 0;
      targetLock, simpleMove, skipNextMousePress := false, false, false;
      registered := [ActorTag, PlayerTag, NullBehaviourTag, BasicMonsterTag];
      var numLevels := stream[0].n;
      var unread := stream[1..];
      var m: map<nat, Option<GameLevel>> := map[];
      var i := 0;
      while i < numLevels
        invariant i <= numLevels
        invariant DecodeLevels(unread, numLevels - i, m) == DecodeLevels(stream[1..], numLevels, map[])
      {
        DecodeStep(unread, numLevels - i, m);
        var levelIndex := unread[0].v;
        var hasThisLevel := unread[1].b;
        var level: Option<GameLevel> := None;
        if hasThisLevel {
          level := Some(unread[2].level);
          unread := unread[3..];
        } else {
          unread := unread[2..];
        }
        m := m[levelIndex := level];
        i := i + 1;
      }
      var playerId := unread[0].v;
      levels := m;
      nextId := unread[1].v;
      new;
      currentPlayer := GetActorById(playerId);
    }

    /** `save`: the stream the load constructor reads back (see `WorldRoundTrip`). */
    method Save() returns (stream: seq<Field>)
      requires currentPlayer != null
      ensures stream == EncodeWorld(WorldImage(levels, currentPlayer.id, nextId))
    {
      ghost var whole := [U32(|levels|)] + EncodeLevels(levels, Ascending(levels.Keys));
      stream := [U32(|levels|)];
      var remaining := levels.Keys;
      while remaining != {}
        invariant remaining <= levels.Keys
        invariant stream + EncodeLevels(levels, Ascending(remaining)) == whole
        decreases |remaining|
      {
        MinExists(remaining);
        var k :| k in remaining && forall j :: j in remaining ==> k <= j;
        var entry := [I32(k), Flag(levels[k].Some?)];
        if levels[k].Some? {
          entry := entry + [LevelBody(levels[k].value)];
        }
        EncodeNextEntry(levels, remaining, k, stream, whole);
        assert entry == EncodeEntry(k, levels[k]);
        stream := stream + entry;
        remaining := remaining - {k};
      }
      assert stream + EncodeLevels(levels, Ascending(remaining)) == stream;
      stream := stream + [I32(currentPlayer.id), I32(nextId)];
    }

    /** `getActorById`: the first actor with that id, visiting the store in
        ascending key order and skipping reserved slots. */
    method GetActorById(id: int) returns (actor: Actor?)
      ensures actor == AsPointer(ActorById(levels, id))
    {
      var remaining := levels.Keys;
      while remaining != {}
        invariant remaining <= levels.Keys
        invariant ActorByIdIn(levels, Ascending(remaining), id) == ActorById(levels, id)
        decreases |remaining|
      {
        MinExists(remaining);
        var k :| k in remaining && forall j :: j in remaining ==> k <= j;
        AscendingStartsAtMin(remaining, k);
        assert ([k] + Ascending(remaining - {k}))[1..] == Ascending(remaining - {k});
        if levels[k].Some? {
          var found := FindActor(levels[k].value.actors, id);
          if found.Some? {
            return found.value;
          }
        }
        remaining := remaining - {k};
      }
      return null;
    }

    /** `registerPlayer`: insert keeping the roster descending by id, after any equal id. */
    method RegisterPlayer(p: Actor)
      requires DescendingById(players)
      modifies this`players
      ensures players == InsertPlayer(old(players), p)
      ensures multiset(players) == multiset(old(players)) + multiset{p}
      ensures DescendingById(players)
    {
      InsertPlayerKeepsOrder(players, p);
      players := InsertPlayer(players, p);
    }

    /** `deregisterPlayer`: erase the first occurrence (the code requires it to be registered). */
    method DeregisterPlayer(p: Actor)
      requires p in players
      modifies this`players
      ensures players == RemovePlayer(old(players), p)
      ensures multiset(players) == multiset(old(players)) - multiset{p}
      ensures DescendingById(old(players)) ==> DescendingById(players)
    {
      RemovePlayerKeepsOrder(players, p);
      players := RemovePlayer(players, p);
    }

    /** `addCurrentPlayer`. */
    method AddCurrentPlayer(p: Actor)
      modifies this`currentPlayer
      ensures currentPlayer == p
    {
      currentPlayer := p;
    }

    /** `getLevel`: generates a reserved slot on first access and caches it. */
    method GetLevel(i: nat, generate: Generator) returns (level: Option<GameLevel>)
      modifies this`levels
      ensures (level, levels) == LookupLevel(old(levels), i, generate)
    {
      if i !in levels {
        return None;
      }
      if levels[i].None? {
        levels := levels[i := Some(generate(100, 100, i, i - 1, i + 1))];
      }
      level := levels[i];
    }

    /** `insertLevel`: stores a slot, replacing what was there. */
    method InsertLevel(i: nat, slot: Option<GameLevel>)
      modifies this`levels
      ensures levels == old(levels)[i := slot]
    {
      levels := levels[i := slot];
    }

    /** `generateLevels`: the town at key 0 and reserved slots 1..16. */
    method GenerateLevels(width: int, height: int)
      modifies this`levels
      ensures 0 in levels && levels[0] == Some(TownLevel(width, height))
      ensures forall i: nat :: 1 <= i < 17 ==> i in levels && levels[i].None?
      ensures forall k: nat :: k in levels <==> k in old(levels) || k < 17
      ensures forall k :: k in old(levels) && k >= 17 ==> levels[k] == old(levels)[k]
      ensures old(levels) == map[] ==> levels.Keys == KeyRange(17) && |levels| == 17
    {
      ghost var before := levels;
      levels := levels[0 := Some(TownLevel(width, height))];
      for i := 1 to 17
        invariant 0 in levels && levels[0] == Some(TownLevel(width, height))
        invariant forall j: nat :: 1 <= j < i ==> j in levels && levels[j].None?
        invariant forall k: nat :: k in levels <==> k in before || k < i
        invariant forall k :: k in before && k >= i ==> levels[k] == before[k]
      {
        levels := levels[i := None];
      }
      if before == map[] {
        assert levels.Keys == KeyRange(17);
        assert |levels| == |levels.Keys|;
      }
    }

    /** The cases in which `setLevel` returns at once: out of range by the
        store's size, negative, or already on a level whose own index is `n`. */
    predicate SetLevelSkips(n: int)
      reads this, currentPlayer
      requires currentPlayer != null
      requires currentPlayer.level.Some? ==> HasCurrentLevel()
    {
      n >= |levels| || n < 0 || (currentPlayer.level.Some? && CurrentLevel().index == n)
    }

    /** `setLevel`: moves the current player to the up-stairs of level `n`,
        generating it if reserved, and returns the track `playLevelMusic` starts
        (none when the call returns at once or the index has no track). */
    method SetLevel(n: int, generate: Generator) returns (music: Option<string>)
      requires currentPlayer != null
      requires currentPlayer.level.Some? ==> HasCurrentLevel()
      requires !SetLevelSkips(n) ==> n in levels
      modifies this`levels, currentPlayer`level, currentPlayer`pos
      ensures old(SetLevelSkips(n)) ==>
        levels == old(levels) && currentPlayer.level == old(currentPlayer.level)
        && currentPlayer.pos == old(currentPlayer.pos) && music == None
      ensures !old(SetLevelSkips(n)) ==>
        var (level, store) := LookupLevel(old(levels), n, generate);
        && levels == store && currentPlayer.level == Some(n)
        && level.Some? && currentPlayer.pos == level.value.upStairs
        && music == LevelMusic(n)
      ensures HasCurrentLevel() || currentPlayer.level.None?
    {
      if SetLevelSkips(n) {
        return None;
      }
      LookupLevelFrame(levels, n, generate);
      var level := GetLevel(n, generate);
      currentPlayer.level := Some(n);
      currentPlayer.pos := level.value.upStairs;
      music := LevelMusic(n);
    }

    /** `changeLevel`: to the previous level when going up, the next one when
        going down, then onto the down-stairs (going up) or up-stairs (going
        down) of whatever level the player is on afterwards. */
    method ChangeLevel(up: bool, generate: Generator) returns (music: Option<string>)
      requires HasCurrentLevel()
      requires var next := if up then CurrentLevel().previous else CurrentLevel().next;
        !SetLevelSkips(next) ==> next in levels
      modifies this`levels, currentPlayer`level, currentPlayer`pos
      ensures HasCurrentLevel()
      ensures var next := old(if up then CurrentLevel().previous else CurrentLevel().next);
        && (old(SetLevelSkips(next)) ==> levels == old(levels) && currentPlayer.level == old(currentPlayer.level) && music == None)
        && (!old(SetLevelSkips(next)) ==>
              levels == LookupLevel(old(levels), next, generate).1 && currentPlayer.level == Some(next)
              && music == LevelMusic(next))
      ensures currentPlayer.pos == if up then CurrentLevel().downStairs else CurrentLevel().upStairs
    {
      var next := if up then CurrentLevel().previous else CurrentLevel().next;
      if !SetLevelSkips(next) {
        LookupLevelFrame(levels, next, generate);
      }
      music := SetLevel(next, generate);
      var level := CurrentLevel();
      currentPlayer.pos := if up then level.downStairs else level.upStairs;
    }

    /** The hover state and description texts `updateHover` produces on the current level. */
    function HoverStep(tile: Tile): (HoverState, seq<string>)
      reads this, currentPlayer, CurrentLevel().actorAt.Values
      requires HasCurrentLevel()
    {
      var level := CurrentLevel();
      Hover(level.hover, currentPlayer.cursorItem, TargetedActor(level, currentPlayer, tile), TargetedItem(level, tile))
    }

    /** `updateHover`: records what the pointer is over on the current level and
        returns the descriptions set, in order. */
    method UpdateHover(tile: Tile) returns (texts: seq<string>)
      requires HasCurrentLevel()
      modifies this`levels
      ensures var (h, t) := old(HoverStep(tile));
        && levels == old(levels)[currentPlayer.level.value := Some(old(CurrentLevel()).(hover := h))]
        && texts == t
      ensures HasCurrentLevel()
    {
      var level := CurrentLevel();
      var step := Hover(level.hover, currentPlayer.cursorItem, TargetedActor(level, currentPlayer, tile), TargetedItem(level, tile));
      levels := levels[currentPlayer.level.value := Some(level.(hover := step.0))];
      texts := step.1;
    }

    /** The levels `update` updates: each level hosting a registered player,
        once, in the order the roster first reaches it. */
    method LevelsToUpdate() returns (updated: seq<nat>)
      ensures updated == FirstAppearances(PlayerLevels(players))
    {
      var done: set<nat> := {};
      updated := [];
      for i := 0 to |players|
        invariant updated == FirstAppearances(PlayerLevels(players[..i]))
        invariant forall k :: k in done <==> k in updated
      {
        assert players[..i + 1][..i] == players[..i];
        var level := players[i].level;
        if level.Some? && level.value !in done {
          done := done + {level.value};
          updated := updated + [level.value];
        }
      }
      assert players[..|players|] == players;
    }

    /** `update`: advances the tick counter, updates each level that hosts a
        registered player once, in roster order, and refreshes the hover (or
        clears it while the interface holds the pointer). */
    method Update(tile: Tile, interfaceActive: bool) returns (updated: seq<nat>, texts: seq<string>)
      requires HasCurrentLevel()
      modifies this`ticksPassed, this`levels
      ensures ticksPassed == old(ticksPassed) + 1
      ensures updated == old(FirstAppearances(PlayerLevels(players)))
      ensures var (h, t) := if interfaceActive then Hover(old(CurrentLevel()).hover, None, None, None) else old(HoverStep(tile));
        && levels == old(levels)[currentPlayer.level.value := Some(old(CurrentLevel()).(hover := h))]
        && texts == t
    {
      // The counter is stored last; the code increments it first, and
      // nothing in between reads it.
      updated := LevelsToUpdate();
      if !interfaceActive {
        texts := UpdateHover(tile);
      } else {
        var level := CurrentLevel();
        var step := Hover(level.hover, None, None, None);
        levels := levels[currentPlayer.level.value := Some(level.(hover := step.0))];
        texts := step.1;
      }
      ticksPassed := ticksPassed + 1;
    }

    /** `onMouseDown`: the flag machine of `MouseDown` applied to the world's
        flags, with the intent carried out on the current player's target and
        destination. Dropping the cursor item is returned as an intent. */
    method OnMouseDown(tile: Tile, dropTile: Tile, inventoryShown: bool) returns (intent: Intent)
      requires HasCurrentLevel()
      modifies this`skipNextMousePress, this`targetLock, this`simpleMove, currentPlayer`target, currentPlayer`destination
      ensures (Flags(), intent) == old(MouseDown(Flags(), currentPlayer.cursorItem.Some?,
                                              TargetedActor(CurrentLevel(), currentPlayer, tile),
                                              PlacedTile(TargetedItem(CurrentLevel(), tile)),
                                              inventoryShown, Pos(tile.x, tile.y), Pos(dropTile.x, dropTile.y)))
      ensures intent.TargetActor? ==> currentPlayer.target == ActorTarget(intent.actor)
      ensures intent.TargetItem? ==> currentPlayer.target == ItemTarget(intent.action, intent.tile)
      ensures intent.MoveTo? ==> currentPlayer.target == NoTarget && currentPlayer.destination == intent.dest
      ensures !intent.MoveTo? ==> currentPlayer.destination == old(currentPlayer.destination)
      ensures !intent.TargetActor? && !intent.TargetItem? && !intent.MoveTo? ==> currentPlayer.target == old(currentPlayer.target)
    {
      if skipNextMousePress {
        return NoIntent;
      }
      var level := CurrentLevel();
      var clickedActor := TargetedActor(level, currentPlayer, tile);
      var item := TargetedItem(level, tile);
      var targetWasLocked := targetLock;
      targetLock := true;
      if !targetWasLocked && currentPlayer.cursorItem.Some? {
        return DropCursorItem(Pos(dropTile.x, dropTile.y));
      }
      if !targetWasLocked {
        if clickedActor.Some? {
          currentPlayer.target := ActorTarget(clickedActor.value);
          return TargetActor(clickedActor.value);
        }
        if item.Some? {
          var action := if inventoryShown then ToCursor else AutoEquip;
          currentPlayer.target := ItemTarget(action, item.value.0);
          return TargetItem(action, item.value.0);
        }
      }
      if !targetWasLocked || simpleMove {
        currentPlayer.target := NoTarget;
        currentPlayer.destination := Pos(tile.x, tile.y);
        simpleMove := true;
        return MoveTo(Pos(tile.x, tile.y));
      }
      return NoIntent;
    }

    /** `onMouseRelease`: clears the three flags and the current player's talking flag. */
    method OnMouseRelease()
      requires currentPlayer != null
      modifies this`skipNextMousePress, this`targetLock, this`simpleMove, currentPlayer`isTalking
      ensures Flags() == MouseRelease(old(Flags()))
      ensures !currentPlayer.isTalking
    {
      skipNextMousePress, targetLock, simpleMove := false, false, false;
      currentPlayer.isTalking := false;
    }
  }
}
