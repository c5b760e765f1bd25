/** Entities shared by the behaviour and world models: tile positions, items,
    actor targets, hover state, the Actor object and a level as an opaque record. */
module Types {

  datatype Option<T> = None | Some(value: T)

  /** A tile coordinate: the `current()` pair of an actor's Position. */
  datatype Pos = Pos(x: int, y: int)

  /** Which diagonal half of a diamond-shaped tile the pointer is over. */
  datatype TileHalf = LeftHalf | RightHalf

  /** The renderer's answer to "which tile is under this screen point". */
  datatype Tile = Tile(x: int, y: int, half: TileHalf)

  /** An item; only its display name matters here. */
  datatype Item = Item(name: string)

  /** What a player does with an item it clicked on the ground. */
  datatype ItemAction = ToCursor | AutoEquip

  /** The cached record of what the pointer is over, kept per level. */
  datatype HoverState = NothingHovered | ActorHovered(actorId: int) | ItemHovered(tile: Pos)

  /** An actor's current target: nothing, another actor, or a placed item with an action. */
  datatype Target = NoTarget | ActorTarget(actor: Actor) | ItemTarget(action: ItemAction, tile: Pos)

  /** An actor (a player is an actor too). `level` is the key of the level-store
      slot the actor stands on, a non-owning reference to that level. */
  class Actor {
    const id: int
    const name: string
    var pos: Pos
    var dead: bool
    var target: Target
    var destination: Pos
    var moving: bool
    var level: Option<nat>
    var cursorItem: Option<Item>
    var isTalking: bool

    constructor (id: int, name: string, pos: Pos)
      ensures this.id == id && this.name == name && this.pos == pos
      ensures !dead && target == NoTarget && destination == pos && !moving
      ensures level == None && cursorItem == None && !isTalking
    {
      this.id, this.name, this.pos := id, name, pos;
      dead, target, destination, moving := false, NoTarget, pos, false;
      level, cursorItem, isTalking := None, None, false;
    }
  }

  /** A level as the world sees it: its index, size, stairs, links to the
      neighbouring levels, the actor standing on each tile, the actors it
      holds (in its own search order), the items placed on it, and its hover state. */
  datatype GameLevel = GameLevel(
    index: int,
    width: int,
    height: int,
    upStairs: Pos,
    downStairs: Pos,
    previous: int,
    next: int,
    actorAt: map<Pos, Actor>,
    actors: seq<Actor>,
    items: map<Pos, Item>,
    hover: HoverState)
}
