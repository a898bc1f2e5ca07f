/** The per-creature walk cache of src/creature.cpp: a window of flags around the creature that says
    which tiles it may enter. A one-tile step shifts the window in place instead of asking every tile.

    The world is a function from positions to tiles; asking a tile whether this creature may enter is
    `walkable`. The window is 2 * halfHeight + 1 rows of 2 * halfWidth + 1 columns. */
module WalkCache {
  import opened Common

  datatype Position = Position(x: int, y: int, z: int)

  datatype Tile = Absent | Present(walkable: bool)

  type World = Position -> Tile

  /** What querying the tile itself answers. */
  function Enterable(world: World, p: Position): bool {
    world(p) == Present(true)
  }

  /** The worlds differ at most at the two given positions. */
  ghost predicate SameBut(before: World, after: World, p: Position, q: Position) {
    forall r {:trigger after(r)} {:trigger before(r)} :: r != p && r != q ==> after(r) == before(r)
  }

  /** The type of an item: what the handlers look at in it, and an id for all else. */
  datatype ItemType = ItemType(id: nat, blockSolid: bool, blockPathFind: bool, ground: bool)

  /** What happens on one tile. */
  datatype Change =
    | ItemAdded
    | ItemUpdated(oldType: ItemType, newType: ItemType)
    | ItemRemoved(itemType: ItemType)
    | CreatureAppeared
    | CreatureDisappeared

  /** Whether the handler of the change asks the tile again. */
  predicate Refreshes(change: Change) {
    match change
    case ItemAdded => true
    case ItemUpdated(oldType, newType) =>
      oldType.blockSolid || oldType.blockPathFind || newType.blockPathFind || newType.blockSolid
    case ItemRemoved(itemType) => itemType.blockSolid || itemType.blockPathFind || itemType.ground
    case CreatureAppeared => true
    case CreatureDisappeared => false
  }

  /** What lies and stands on a tile. */
  datatype Contents = Contents(ground: Option<ItemType>, items: seq<ItemType>, creatures: set<nat>)

  /** What of it decides whether the tile can be entered: what can block, whether there is ground, and
      the creatures. */
  datatype Look = Look(blocking: seq<ItemType>, ground: bool, creatures: set<nat>)

  ghost function Blocking(items: seq<ItemType>): seq<ItemType> {
    if items == [] then [] else IfBlocking(items[0]) + Blocking(items[1..])
  }

  ghost function IfBlocking(t: ItemType): seq<ItemType> {
    if t.blockSolid || t.blockPathFind then [t] else []
  }

  ghost function Ground(c: Contents): seq<ItemType> {
    match c.ground
    case None => []
    case Some(t) => [t]
  }

  ghost function LookAt(c: Contents): Look {
    Look(Blocking(Ground(c) + c.items), c.ground.Some?, c.creatures)
  }

  /** The change turns these contents into those; what is kept as the ground is of a ground type. */
  ghost predicate Alters(before: Contents, change: Change, after: Contents) {
    && (before.ground.Some? ==> before.ground.value.ground)
    && match change
       case ItemAdded => before.creatures == after.creatures
       case ItemUpdated(oldType, newType) =>
         && before.creatures == after.creatures
         && ((before.ground == Some(oldType) && after.ground == Some(newType) && before.items == after.items)
             || (before.ground == after.ground
                 && exists i | 0 <= i < |before.items| ::
                   before.items[i] == oldType && after.items == before.items[i := newType]))
       case ItemRemoved(itemType) =>
         && before.creatures == after.creatures
         && ((before.ground == Some(itemType) && after.ground == None && before.items == after.items)
             || (before.ground == after.ground
                 && exists i | 0 <= i < |before.items| ::
                   before.items[i] == itemType && after.items == before.items[..i] + before.items[i + 1..]))
       case CreatureAppeared =>
         && before.ground == after.ground && before.items == after.items && before.creatures < after.creatures
       case CreatureDisappeared =>
         && before.ground == after.ground && before.items == after.items && after.creatures < before.creatures
  }

  lemma {:induction false} BlockingAppend(a: seq<ItemType>, b: seq<ItemType>)
    ensures Blocking(a + b) == Blocking(a) + Blocking(b)
  {
    if a == [] {
      assert a + b == b;
    } else {
      BlockingAppend(a[1..], b);
      assert (a + b)[1..] == a[1..] + b && (a + b)[0] == a[0];
      AssociateThree(IfBlocking(a[0]), Blocking(a[1..]), Blocking(b));
    }
  }

  /** The handlers ask the tile again for every change that can make a difference, but for a creature
      that disappears: that always makes one, and is never asked about. */
  lemma AskedOrTheSame(before: Contents, change: Change, after: Contents)
    requires Alters(before, change, after)
    ensures change.CreatureDisappeared? <==> !Refreshes(change) && LookAt(before) != LookAt(after)
  {
    if !Refreshes(change) && !change.CreatureDisappeared? {
      BlockingAppend(Ground(before), before.items);
      BlockingAppend(Ground(after), after.items);
      if before.items != after.items {
        var i :| 0 <= i < |before.items| && before.items[i] == (if change.ItemUpdated? then change.oldType
                                                               else change.itemType) &&
          after.items == if change.ItemUpdated? then before.items[i := change.newType]
                         else before.items[..i] + before.items[i + 1..];
        SplitAt(before.items, i);
        if change.ItemUpdated? { SplitAt(after.items, i); }
        BlockingAppend(before.items[..i], before.items[i + 1..]);
      }
    }
  }

  lemma SplitAt(items: seq<ItemType>, i: nat)
    requires i < |items| && !items[i].blockSolid && !items[i].blockPathFind
    ensures Blocking(items) == Blocking(items[..i]) + Blocking(items[i + 1..])
  {
    assert items == items[..i] + items[i..] && items[i..][0] == items[i] && items[i..][1..] == items[i + 1..];
    BlockingAppend(items[..i], items[i..]);
  }

  type Tiles = Position -> Option<Contents>

  /** What the tile at a position answers, with whatever else is known about that position. */
  type Answer = (Position, Look) -> bool

  ghost function Shown(tiles: Tiles, p: Position, answer: Answer): Tile {
    match tiles(p)
    case None => Absent
    case Some(c) => Present(answer(p, LookAt(c)))
  }

  ghost predicate Shows(world: World, tiles: Tiles, answer: Answer) {
    forall p :: world(p) == Shown(tiles, p, answer)
  }

  ghost predicate SameTilesBut(before: Tiles, after: Tiles, p: Position, q: Position) {
    forall r {:trigger after(r)} {:trigger before(r)} :: r != p && r != q ==> after(r) == before(r)
  }

  /** What can happen around a creature that keeps its cache: it makes a step of one tile in any of
      the eight directions; it is teleported, changes floor or has its resistance changed, after all of
      which the cache is loaded again; another creature moves; or one tile changes. Each event names
      the world after it. */
  datatype Event =
    | Step(dx: int, dy: int, after: World)
    | Jump(newPos: Position, after: World)
    | OtherMoved(oldPos: Position, newPos: Position, after: World)
    | TileChanged(p: Position, change: Change, after: World)

  function PlaceAfter(pos: Position, event: Event): Position {
    match event
    case Step(dx, dy, _) => Position(pos.x + dx, pos.y + dy, pos.z)
    case Jump(newPos, _) => newPos
    case _ => pos
  }

  /** The world changes only where the event says. */
  ghost predicate Possible(pos: Position, world: World, event: Event) {
    match event
    case Step(dx, dy, after) =>
      -1 <= dx <= 1 && -1 <= dy <= 1 && SameBut(world, after, pos, PlaceAfter(pos, event))
    case Jump(_, _) => true
    case OtherMoved(oldPos, newPos, after) => SameBut(world, after, oldPos, newPos)
    case TileChanged(p, _, after) => SameBut(world, after, p, p)
  }

  ghost function WorldAfter(world: World, events: seq<Event>): World {
    if events == [] then world else events[|events| - 1].after
  }

  class Creature {
    const halfWidth: nat
    const halfHeight: nat
    const cache: array2<bool>
    var pos: Position
    var isMapLoaded: bool

    ghost predicate Valid()
      reads this
    {
      cache.Length0 == 2 * halfHeight + 1 && cache.Length1 == 2 * halfWidth + 1
    }

    /** The position that the flag in row `y` and column `x` stands for. */
    function At(y: int, x: int): Position
      reads this
    {
      Position(pos.x + x - halfWidth, pos.y + y - halfHeight, pos.z)
    }

    predicate InWindow(y: int, x: int) {
      0 <= y <= 2 * halfHeight && 0 <= x <= 2 * halfWidth
    }

    /** Every flag but the creature's own agrees with asking the tile. */
    ghost predicate InSync(world: World)
      requires Valid()
      reads this, cache
    {
      forall y, x | InWindow(y, x) && At(y, x) != pos :: cache[y, x] == Enterable(world, At(y, x))
    }

    constructor (halfWidth: nat, halfHeight: nat, pos: Position)
      ensures Valid() && fresh(cache) && this.pos == pos && !isMapLoaded
      ensures this.halfWidth == halfWidth && this.halfHeight == halfHeight
      ensures forall y, x | InWindow(y, x) :: !cache[y, x]
    {
      this.halfWidth, this.halfHeight, this.pos, this.isMapLoaded := halfWidth, halfHeight, pos, false;
      cache := new bool[2 * halfHeight + 1, 2 * halfWidth + 1]((y, x) => false);
    }

    /** updateTileCache: asks one tile, given by its offset; offsets outside the window are ignored. */
    method UpdateTileCache(tile: Tile, dx: int, dy: int)
      requires Valid()
      modifies cache
      ensures forall y, x | InWindow(y, x) ::
        cache[y, x] == if y == halfHeight + dy && x == halfWidth + dx then tile == Present(true) else old(cache[y, x])
    {
      if 0 <= halfWidth + dx <= 2 * halfWidth && 0 <= halfHeight + dy <= 2 * halfHeight {
        cache[halfHeight + dy, halfWidth + dx] := tile == Present(true);
      }
    }

    method UpdateTileCacheAt(tile: Tile, p: Position)
      requires Valid()
      modifies cache
      ensures forall y, x | InWindow(y, x) ::
        cache[y, x] == if At(y, x) == p then tile == Present(true) else old(cache[y, x])
    {
      if p.z == pos.z {
        UpdateTileCache(tile, p.x - pos.x, p.y - pos.y);
      }
    }

    // -------------------------------------------------------------- one step

    /** Moves every row one down (memcpy row by row, from the last); row 0 stays. */
    method ShiftSouth()
      requires Valid()
      modifies cache
      ensures forall y, x | InWindow(y, x) :: cache[y, x] == if y > 0 then old(cache[y - 1, x]) else old(cache[y, x])
    {
      var y := 2 * halfHeight - 1;
      while y >= 0
        invariant -1 <= y <= 2 * halfHeight - 1
        invariant forall r, x | InWindow(r, x) ::
          cache[r, x] == if r > y + 1 then old(cache[r - 1, x]) else old(cache[r, x])
      {
        forall x | 0 <= x <= 2 * halfWidth {
          cache[y + 1, x] := cache[y, x];
        }
        y := y - 1;
      }
    }

    /** Moves every row one up; the last row stays. */
    method ShiftNorth()
      requires Valid()
      modifies cache
      ensures forall y, x | InWindow(y, x) ::
        cache[y, x] == if y < 2 * halfHeight then old(cache[y + 1, x]) else old(cache[y, x])
    {
      var y := 0;
      while y <= 2 * halfHeight - 1
        invariant 0 <= y <= 2 * halfHeight
        invariant forall r, x | InWindow(r, x) ::
          cache[r, x] == if r < y then old(cache[r + 1, x]) else old(cache[r, x])
      {
        forall x | 0 <= x <= 2 * halfWidth {
          cache[y, x] := cache[y + 1, x];
        }
        y := y + 1;
      }
    }

    /** Moves the rows from `starty` to `endy` one column to the left; the last column stays. */
    method ShiftWest(starty: int, endy: int)
      requires Valid() && 0 <= starty && endy <= 2 * halfHeight
      modifies cache
      ensures forall y, x | InWindow(y, x) ::
        cache[y, x] == if starty <= y <= endy && x < 2 * halfWidth then old(cache[y, x + 1]) else old(cache[y, x])
    {
      var y := starty;
      while y <= endy
        invariant starty <= y
        invariant forall r, c | InWindow(r, c) ::
          cache[r, c] ==
            if starty <= r < y && r <= endy && c < 2 * halfWidth then old(cache[r, c + 1]) else old(cache[r, c])
      {
        var x := 0;
        while x <= 2 * halfWidth - 1
          invariant 0 <= x <= 2 * halfWidth
          invariant forall r, c | InWindow(r, c) ::
            cache[r, c] ==
              if (starty <= r < y && c < 2 * halfWidth) || (r == y && c < x)
              then old(cache[r, c + 1]) else old(cache[r, c])
        {
          cache[y, x] := cache[y, x + 1];
          x := x + 1;
        }
        y := y + 1;
      }
    }

    /** Moves the rows from `starty` to `endy` one column to the right; column 0 stays. */
    method ShiftEast(starty: int, endy: int)
      requires Valid() && 0 <= starty && endy <= 2 * halfHeight
      modifies cache
      ensures forall y, x | InWindow(y, x) ::
        cache[y, x] == if starty <= y <= endy && x > 0 then old(cache[y, x - 1]) else old(cache[y, x])
    {
      var y := starty;
      while y <= endy
        invariant starty <= y
        invariant forall r, c | InWindow(r, c) ::
          cache[r, c] == if starty <= r < y && r <= endy && c > 0 then old(cache[r, c - 1]) else old(cache[r, c])
      {
        var x := 2 * halfWidth - 1;
        while x >= 0
          invariant -1 <= x <= 2 * halfWidth - 1
          invariant forall r, c | InWindow(r, c) ::
            cache[r, c] ==
              if (starty <= r < y && c > 0) || (r == y && c > x + 1) then old(cache[r, c - 1]) else old(cache[r, c])
        {
          cache[y, x + 1] := cache[y, x];
          x := x - 1;
        }
        y := y + 1;
      }
    }

    /** Asks every tile of the row at vertical offset `dy`. */
    method FillRow(world: World, dy: int)
      requires Valid()
      modifies cache
      ensures forall y, x | InWindow(y, x) ::
        cache[y, x] == if y == halfHeight + dy then Enterable(world, At(y, x)) else old(cache[y, x])
    {
      for x := 0 - halfWidth to halfWidth + 1
        invariant forall r, c | InWindow(r, c) ::
          cache[r, c] ==
            if r == halfHeight + dy && c < halfWidth + x then Enterable(world, At(r, c)) else old(cache[r, c])
      {
        var tile := world(Position(pos.x + x, pos.y + dy, pos.z));
        UpdateTileCache(tile, x, dy);
      }
    }

    /** Asks every tile of the column at horizontal offset `dx`. */
    method FillColumn(world: World, dx: int)
      requires Valid()
      modifies cache
      ensures forall y, x | InWindow(y, x) ::
        cache[y, x] == if x == halfWidth + dx then Enterable(world, At(y, x)) else old(cache[y, x])
    {
      for y := 0 - halfHeight to halfHeight + 1
        invariant forall r, c | InWindow(r, c) ::
          cache[r, c] ==
            if c == halfWidth + dx && r < halfHeight + y then Enterable(world, At(r, c)) else old(cache[r, c])
      {
        var tile := world(Position(pos.x + dx, pos.y + y, pos.z));
        UpdateTileCache(tile, dx, y);
      }
    }

    /** The rows that the vertical part of a step asked afresh. */
    predicate FreshRow(oldPos: Position, y: int)
      reads this
    {
      (oldPos.y > pos.y && y == 0) || (oldPos.y < pos.y && y == 2 * halfHeight)
    }

    /** In sync as seen from `at`, wherever the flags are not known to be fresh. */
    ghost predicate SyncedFrom(at: Position, oldPos: Position, world: World)
      requires Valid()
      reads this, cache
    {
      forall y, x | InWindow(y, x) && !FreshRow(oldPos, y) && Seen(at, y, x) != oldPos ::
        cache[y, x] == Enterable(world, Seen(at, y, x))
    }

    /** The position in row `y` and column `x` of a window around `at`. */
    function Seen(at: Position, y: int, x: int): Position {
      Position(at.x + x - halfWidth, at.y + y - halfHeight, at.z)
    }

    /** Afterwards rows are right and columns still those of the old place. */
    ghost predicate RowsDone(oldPos: Position, before: World, world: World)
      requires Valid()
      reads this, cache
    {
      && SyncedFrom(Position(oldPos.x, pos.y, pos.z), oldPos, before)
      && forall y, x | InWindow(y, x) && FreshRow(oldPos, y) :: cache[y, x] == Enterable(world, At(y, x))
    }

    ghost predicate SyncedAround(oldPos: Position, before: World)
      requires Valid()
      reads this, cache
    {
      forall y, x | InWindow(y, x) && Seen(oldPos, y, x) != oldPos ::
        cache[y, x] == Enterable(before, Seen(oldPos, y, x))
    }

    method RowsNorthward(oldPos: Position, ghost before: World, world: World)
      requires Valid() && oldPos.z == pos.z && oldPos.y == pos.y + 1 && SyncedAround(oldPos, before)
      modifies cache
      ensures RowsDone(oldPos, before, world)
    {
      ghost var mid := Position(oldPos.x, pos.y, pos.z);
      ShiftSouth();
      FillRow(world, 0 - halfHeight);
      forall y, x | InWindow(y, x) && !FreshRow(oldPos, y) && Seen(mid, y, x) != oldPos
        ensures cache[y, x] == Enterable(before, Seen(mid, y, x))
      {
        assert Seen(mid, y, x) == Seen(oldPos, y - 1, x) && cache[y, x] == old(cache[y - 1, x]);
      }
    }

    method RowsSouthward(oldPos: Position, ghost before: World, world: World)
      requires Valid() && oldPos.z == pos.z && oldPos.y == pos.y - 1 && SyncedAround(oldPos, before)
      modifies cache
      ensures RowsDone(oldPos, before, world)
    {
      ghost var mid := Position(oldPos.x, pos.y, pos.z);
      ShiftNorth();
      FillRow(world, halfHeight);
      forall y, x | InWindow(y, x) && !FreshRow(oldPos, y) && Seen(mid, y, x) != oldPos
        ensures cache[y, x] == Enterable(before, Seen(mid, y, x))
      {
        assert Seen(mid, y, x) == Seen(oldPos, y + 1, x) && cache[y, x] == old(cache[y + 1, x]);
      }
    }

    /** Every flag but that of the place left agrees with one of the two worlds. */
    ghost predicate ColumnsDone(oldPos: Position, before: World, world: World)
      requires Valid()
      reads this, cache
    {
      forall y, x | InWindow(y, x) && At(y, x) != oldPos ::
        cache[y, x] == Enterable(world, At(y, x)) || cache[y, x] == Enterable(before, At(y, x))
    }

    /** The rows just asked must not be shifted: they are what the trimmed range leaves out. */
    method ColumnsEastward(oldPos: Position, starty: int, endy: int, ghost before: World, world: World)
      requires Valid() && oldPos.z == pos.z && oldPos.x == pos.x - 1 && RowsDone(oldPos, before, world)
      requires 0 <= starty && endy <= 2 * halfHeight
      requires forall y | 0 <= y <= 2 * halfHeight :: FreshRow(oldPos, y) <==> !(starty <= y <= endy)
      modifies cache
      ensures ColumnsDone(oldPos, before, world)
    {
      ghost var mid := Position(oldPos.x, pos.y, pos.z);
      assert forall y, x | InWindow(y, x) && x < 2 * halfWidth :: At(y, x) == Seen(mid, y, x + 1);
      ShiftWest(starty, endy);
      FillColumn(world, halfWidth);
      forall y, x | InWindow(y, x) && At(y, x) != oldPos
        ensures cache[y, x] == Enterable(world, At(y, x)) || cache[y, x] == Enterable(before, At(y, x))
      {
        if x < 2 * halfWidth && starty <= y <= endy {
          assert cache[y, x] == old(cache[y, x + 1]);
        }
      }
    }

    method ColumnsWestward(oldPos: Position, starty: int, endy: int, ghost before: World, world: World)
      requires Valid() && oldPos.z == pos.z && oldPos.x == pos.x + 1 && RowsDone(oldPos, before, world)
      requires 0 <= starty && endy <= 2 * halfHeight
      requires forall y | 0 <= y <= 2 * halfHeight :: FreshRow(oldPos, y) <==> !(starty <= y <= endy)
      modifies cache
      ensures ColumnsDone(oldPos, before, world)
    {
      ghost var mid := Position(oldPos.x, pos.y, pos.z);
      assert forall y, x | InWindow(y, x) && x > 0 :: At(y, x) == Seen(mid, y, x - 1);
      ShiftEast(starty, endy);
      FillColumn(world, 0 - halfWidth);
      forall y, x | InWindow(y, x) && At(y, x) != oldPos
        ensures cache[y, x] == Enterable(world, At(y, x)) || cache[y, x] == Enterable(before, At(y, x))
      {
        if x > 0 && starty <= y <= endy {
          assert cache[y, x] == old(cache[y, x - 1]);
        }
      }
    }

    /** onCreatureMove for the creature itself, on a step that is no teleport: it already stands at
        its new position and the world differs from the one before only where it left and arrived. */
    method StepFrom(oldPos: Position, ghost before: World, world: World)
      requires Valid() && oldPos.z == pos.z
      requires -1 <= pos.x - oldPos.x <= 1 && -1 <= pos.y - oldPos.y <= 1
      requires SyncedAround(oldPos, before) && SameBut(before, world, oldPos, pos)
      modifies cache
      ensures InSync(world)
    {
      if oldPos.y > pos.y {
        RowsNorthward(oldPos, before, world);
      } else if oldPos.y < pos.y {
        RowsSouthward(oldPos, before, world);
      }
      var starty, endy, dy := 0, 2 * halfHeight, oldPos.y - pos.y;
      if dy < 0 {
        endy := endy + dy;
      } else if dy > 0 {
        starty := starty + dy;
      }
      if oldPos.x < pos.x {
        ColumnsEastward(oldPos, starty, endy, before, world);
      } else if oldPos.x > pos.x {
        ColumnsWestward(oldPos, starty, endy, before, world);
      }
      UpdateTileCacheAt(world(oldPos), oldPos);
    }

    // -------------------------------------------------------------- whole runs

    predicate Sees(at: Position, p: Position) {
      && p.z == at.z
      && 0 <= halfWidth + p.x - at.x <= 2 * halfWidth
      && 0 <= halfHeight + p.y - at.y <= 2 * halfHeight
    }

    /** A change of the tile at `p` that leaves a cache in sync: the tile is asked again, or its flag is
        not looked at, or asking it would tell nothing new. */
    ghost predicate HarmlessChange(pos: Position, world: World, p: Position, change: Change, after: World) {
      Refreshes(change) || p == pos || !Sees(pos, p) || Enterable(after, p) == Enterable(world, p)
    }

    /** A reload that leaves a cache in sync: no flag that was set is one of a place without a tile now. */
    ghost predicate HarmlessJump(pos: Position, world: World, newPos: Position, after: World) {
      forall y, x | InWindow(y, x) && Seen(newPos, y, x) != newPos && after(Seen(newPos, y, x)) == Absent ::
        !Enterable(world, Seen(pos, y, x))
    }

    ghost predicate Harmless(pos: Position, world: World, event: Event) {
      match event
      case Step(_, _, _) => true
      case Jump(newPos, after) => HarmlessJump(pos, world, newPos, after)
      case OtherMoved(_, _, _) => true
      case TileChanged(p, change, after) => HarmlessChange(pos, world, p, change, after)
    }

    ghost predicate AllHarmless(pos: Position, world: World, events: seq<Event>)
      decreases events
    {
      events == [] ||
      (Possible(pos, world, events[0]) && Harmless(pos, world, events[0]) &&
       AllHarmless(PlaceAfter(pos, events[0]), events[0].after, events[1..]))
    }

    /** onCreatureAppear, or the first onThink, for the creature itself: a cache never used before ends
        in sync. */
    method OnAppear(world: World)
      requires Valid() && !isMapLoaded
      requires forall y, x | InWindow(y, x) :: !cache[y, x]
      modifies this`isMapLoaded, cache
      ensures isMapLoaded && InSync(world)
    {
      isMapLoaded := true;
      UpdateMapCache(world);
    }

    /** onCreatureMove for another creature. */
    method OtherCreatureMoved(oldPos: Position, newPos: Position, ghost before: World, world: World)
      requires Valid() && InSync(before) && SameBut(before, world, oldPos, newPos)
      modifies cache
      ensures isMapLoaded ==> InSync(world)
    {
      if isMapLoaded {
        UpdateTileCacheAt(world(newPos), newPos);
        UpdateTileCacheAt(world(oldPos), oldPos);
      }
    }

    twostate predicate Untouched()
      requires old(Valid()) && Valid()
      reads this, cache
    {
      forall y, x | InWindow(y, x) :: cache[y, x] == old(cache[y, x])
    }

    /** onAddTileItem, onUpdateTileItem, onRemoveTileItem and onCreatureAppear for another creature;
        nothing is done about one that disappears. */
    method OnTileChange(p: Position, change: Change, ghost before: World, world: World)
      requires Valid() && InSync(before) && SameBut(before, world, p, p)
      modifies cache
      ensures forall y, x | InWindow(y, x) ::
        cache[y, x] ==
          if isMapLoaded && Refreshes(change) && At(y, x) == p then Enterable(world, p) else old(cache[y, x])
      ensures isMapLoaded ==> (InSync(world) <==> HarmlessChange(pos, before, p, change, world))
      ensures isMapLoaded && (change.ItemAdded? || change.CreatureAppeared?) ==> InSync(world)
      ensures isMapLoaded && change.ItemRemoved? ==>
        var t := change.itemType;
        if t.blockSolid || t.blockPathFind || t.ground then InSync(world) else Untouched()
      ensures isMapLoaded && change.ItemUpdated? ==>
        var s, t := change.oldType, change.newType;
        if s.blockSolid || s.blockPathFind || t.blockSolid || t.blockPathFind then InSync(world) else Untouched()
      ensures change.CreatureDisappeared? ==> Untouched()
    {
      if isMapLoaded && Refreshes(change) && p.z == pos.z {
        UpdateTileCacheAt(world(p), p);
      }
      if Sees(pos, p) {
        assert At(halfHeight + p.y - pos.y, halfWidth + p.x - pos.x) == p;
      }
    }

    /** One step: the creature is put on its new tile and told about it. */
    method MoveBy(dx: int, dy: int, ghost before: World, world: World)
      requires Valid() && InSync(before) && -1 <= dx <= 1 && -1 <= dy <= 1
      requires SameBut(before, world, pos, Position(pos.x + dx, pos.y + dy, pos.z))
      modifies this`pos, cache
      ensures pos == Position(old(pos.x) + dx, old(pos.y) + dy, old(pos.z))
      ensures isMapLoaded ==> InSync(world)
    {
      var oldPos := pos;
      pos := Position(pos.x + dx, pos.y + dy, pos.z);
      if isMapLoaded {
        assert forall y, x | InWindow(y, x) :: Seen(oldPos, y, x) == old(At(y, x));
        StepFrom(oldPos, before, world);
      }
    }

    /** A teleport, a change of floor, or a change of resistance. */
    method JumpTo(newPos: Position, ghost before: World, world: World)
      requires Valid() && InSync(before)
      modifies this`pos, cache
      ensures pos == newPos
      ensures isMapLoaded ==> (InSync(world) <==> HarmlessJump(old(pos), before, newPos, world))
    {
      ghost var oldPos := pos;
      pos := newPos;
      if isMapLoaded {
        assert forall y, x | InWindow(y, x) :: Seen(oldPos, y, x) == old(At(y, x));
        assert forall y, x | InWindow(y, x) :: Seen(newPos, y, x) == At(y, x);
        UpdateMapCache(world);
      }
    }

    /** Any one event: it leaves the cache in sync exactly when it is harmless. */
    method Handle(event: Event, ghost before: World)
      requires Valid() && isMapLoaded && InSync(before) && Possible(pos, before, event)
      modifies this`pos, cache
      ensures pos == PlaceAfter(old(pos), event)
      ensures InSync(event.after) <==> Harmless(old(pos), before, event)
    {
      match event {
        case Step(dx, dy, after) => MoveBy(dx, dy, before, after);
        case Jump(newPos, after) => JumpTo(newPos, before, after);
        case OtherMoved(oldPos, newPos, after) => OtherCreatureMoved(oldPos, newPos, before, after);
        case TileChanged(p, change, after) => OnTileChange(p, change, before, after);
      }
    }

    /** After any run of harmless events the cache answers as the tiles themselves would. */
    method Live(events: seq<Event>, ghost world: World)
      requires Valid() && isMapLoaded && InSync(world) && AllHarmless(pos, world, events)
      modifies this`pos, cache
      ensures InSync(WorldAfter(world, events))
    {
      ghost var now := world;
      for i := 0 to |events|
        invariant InSync(now) && AllHarmless(pos, now, events[i..])
        invariant now == WorldAfter(world, events[..i])
      {
        assert events[i..][0] == events[i] && events[i..][1..] == events[i + 1..];
        Handle(events[i], now);
        now := events[i].after;
        assert events[..i + 1][i] == events[i];
      }
      assert events[..|events|] == events;
    }

    // -------------------------------------------------------------- tiles with contents

    /** One event around the creature, told by what is on the tiles. A change of a tile is any but the
        disappearing of a creature; after a jump there is a tile in every place of the window. */
    ghost predicate Ordinary(at: Position, before: Tiles, event: Event, after: Tiles) {
      match event
      case Step(dx, dy, _) => -1 <= dx <= 1 && -1 <= dy <= 1 && SameTilesBut(before, after, at, PlaceAfter(at, event))
      case Jump(newPos, _) => forall y, x | InWindow(y, x) :: after(Seen(newPos, y, x)).Some?
      case OtherMoved(oldPos, newPos, _) => SameTilesBut(before, after, oldPos, newPos)
      case TileChanged(p, change, _) =>
        && SameTilesBut(before, after, p, p) && before(p).Some? && after(p).Some?
        && Alters(before(p).value, change, after(p).value) && !change.CreatureDisappeared?
    }

    ghost predicate OrdinaryRun(at: Position, tiles: seq<Tiles>, events: seq<Event>, answer: Answer)
      requires |tiles| == |events| + 1
      decreases events
    {
      events == [] ||
      (Ordinary(at, tiles[0], events[0], tiles[1]) && Shows(events[0].after, tiles[1], answer) &&
       OrdinaryRun(PlaceAfter(at, events[0]), tiles[1..], events[1..], answer))
    }

    lemma OrdinaryIsHarmless(at: Position, world: World, before: Tiles, event: Event, after: Tiles, answer: Answer)
      requires Shows(world, before, answer) && Shows(event.after, after, answer) && Ordinary(at, before, event, after)
      ensures Possible(at, world, event) && Harmless(at, world, event)
    {
      match event
      case TileChanged(p, change, _) => AskedOrTheSame(before(p).value, change, after(p).value);
      case _ =>
    }

    lemma {:induction false} OrdinaryRunIsHarmless(at: Position, world: World, tiles: seq<Tiles>, events: seq<Event>,
                                                   answer: Answer)
      requires |tiles| == |events| + 1 && Shows(world, tiles[0], answer) && OrdinaryRun(at, tiles, events, answer)
      ensures AllHarmless(at, world, events)
      decreases events
    {
      if events != [] {
        OrdinaryIsHarmless(at, world, tiles[0], events[0], tiles[1], answer);
        OrdinaryRunIsHarmless(PlaceAfter(at, events[0]), events[0].after, tiles[1..], events[1..], answer);
      }
    }

    /** Among tiles whose answer depends on what can block, whether there is ground and the creatures
        there, the cache stays right whatever happens, as long as no other creature just disappears. */
    method LiveAmong(tiles: seq<Tiles>, events: seq<Event>, answer: Answer, ghost world: World)
      requires Valid() && isMapLoaded && InSync(world) && |tiles| == |events| + 1
      requires Shows(world, tiles[0], answer) && OrdinaryRun(pos, tiles, events, answer)
      modifies this`pos, cache
      ensures forall y, x | InWindow(y, x) && At(y, x) != pos ::
        cache[y, x] == (Shown(tiles[|events|], At(y, x), answer) == Present(true))
    {
      OrdinaryRunIsHarmless(pos, world, tiles, events, answer);
      LastShown(pos, world, tiles, events, answer);
      Live(events, world);
    }

    lemma {:induction false} LastShown(at: Position, world: World, tiles: seq<Tiles>, events: seq<Event>,
                                       answer: Answer)
      requires |tiles| == |events| + 1 && Shows(world, tiles[0], answer) && OrdinaryRun(at, tiles, events, answer)
      ensures Shows(WorldAfter(world, events), tiles[|events|], answer)
      decreases events
    {
      if events != [] {
        LastShown(PlaceAfter(at, events[0]), events[0].after, tiles[1..], events[1..], answer);
      }
    }

    /** getWalkCache: 1 for enterable, 0 for not, 2 for positions the cache knows nothing about. */
    method GetWalkCache(useCacheMap: bool, p: Position, ghost world: World) returns (r: int)
      requires Valid() && InSync(world)
      ensures useCacheMap && p.z != pos.z ==> r == 0
      ensures useCacheMap && p == pos ==> r == 1
      ensures useCacheMap && p.z == pos.z && p != pos && Sees(pos, p) ==> r == if Enterable(world, p) then 1 else 0
      ensures !useCacheMap || (p.z == pos.z && !Sees(pos, p)) ==> r == 2
    {
      if !useCacheMap {
        return 2;
      }
      if pos.z != p.z {
        return 0;
      }
      if p == pos {
        return 1;
      }
      var dx, dy := p.x - pos.x, p.y - pos.y;
      if 0 <= halfWidth + dx <= 2 * halfWidth && 0 <= halfHeight + dy <= 2 * halfHeight {
        assert p == At(halfHeight + dy, halfWidth + dx);
        return if cache[halfHeight + dy, halfWidth + dx] then 1 else 0;
      }
      return 2;
    }

    // -------------------------------------------------------------- loading

    /** updateMapCache, on loading and after teleports: absent tiles are skipped, so a flag left over
        from another place survives there. The cache ends in sync exactly when no such flag was set. */
    method UpdateMapCache(world: World)
      requires Valid()
      modifies cache
      ensures forall y, x | InWindow(y, x) ::
        cache[y, x] == if world(At(y, x)) == Absent then old(cache[y, x]) else Enterable(world, At(y, x))
      ensures InSync(world) <==>
        forall y, x | InWindow(y, x) && At(y, x) != pos && world(At(y, x)) == Absent :: !old(cache[y, x])
    {
      for dy := 0 - halfHeight to halfHeight + 1
        invariant forall r, c | InWindow(r, c) ::
          cache[r, c] ==
            if r < halfHeight + dy && world(At(r, c)) != Absent then Enterable(world, At(r, c)) else old(cache[r, c])
      {
        for dx := 0 - halfWidth to halfWidth + 1
          invariant forall r, c | InWindow(r, c) ::
            cache[r, c] == if (r < halfHeight + dy || (r == halfHeight + dy && c < halfWidth + dx)) &&
              world(At(r, c)) != Absent
                           then Enterable(world, At(r, c)) else old(cache[r, c])
        {
          var dest := Position(pos.x + dx, pos.y + dy, pos.z);
          if world(dest) != Absent {
            UpdateTileCacheAt(world(dest), dest);
          }
        }
      }
    }
  }

  /** A run that leaves the cache wrong: load among open tiles, then teleport to a single one. */
  method StaleAfterTeleport() returns (c: Creature)
    ensures c.Valid() && c.isMapLoaded
    ensures !c.InSync((p: Position) => if p == Position(500, 500, 7) || 99 <= p.x <= 101 then Present(true) else Absent)
  {
    var world := (p: Position) => if p == Position(500, 500, 7) || 99 <= p.x <= 101 then Present(true) else Absent;
    c := new Creature(1, 1, Position(100, 100, 7));
    c.OnAppear(world);
    c.JumpTo(Position(500, 500, 7), world, world);
    assert c.InWindow(0, 0) && Enterable(world, c.Seen(Position(100, 100, 7), 0, 0));
  }

  /** Another: an item that blocks only because a creature looking for a path must not step on it, as a
      teleport, is removed beside the creature; its type has none of the flags looked at. */
  method StaleAfterRemoval() returns (c: Creature)
    ensures c.Valid() && c.isMapLoaded && !c.InSync((p: Position) => Present(true))
  {
    var world := (p: Position) => Present(p != Position(101, 100, 7));
    var after := (p: Position) => Present(true);
    c := new Creature(1, 1, Position(100, 100, 7));
    c.OnAppear(world);
    c.OnTileChange(Position(101, 100, 7), ItemRemoved(ItemType(0, false, false, false)), world, after);
  }
}
