/**
 * The parts of the game-server host that the chunk wrapper calls: worlds,
 * their chunks and the entities inside a chunk. They stand in for the host's
 * own implementation and keep only what the wrapper can observe.
 */
module Host {
  import opened JavaInt

  /** An entity inside a chunk; the wrapper only asks whether it is a player. */
  datatype Entity = PlayerEntity(id: nat) | OtherEntity(id: nat)

  /** The entities that are players. */
  type Player = e: Entity | e.PlayerEntity? witness PlayerEntity(0)

  /** A chunk as the host hands it out: a grid cell of one world. */
  class Chunk {
    const world: World
    const x: int32
    const z: int32
    /** The entities inside the chunk, in the order the host reports them. */
    var entities: seq<Entity>

    constructor (world: World, x: int32, z: int32)
      ensures this.world == world && this.x == x && this.z == z
      ensures entities == []
    {
      this.world := world;
      this.x := x;
      this.z := z;
      entities := [];
    }

    /** `Chunk.isLoaded()`: the world reports the chunk's cell as loaded. */
    predicate IsLoaded()
      reads world
    {
      (x, z) in world.loaded
    }

    /**
     * `Chunk.load()`: the host tries to load the chunk and reports whether
     * it is loaded afterwards. Whether an attempt succeeds is the host's
     * business; a loaded chunk stays loaded, and no other cell changes.
     */
    method Load() returns (ok: bool)
      modifies world`loaded
      ensures ok <==> IsLoaded()
      ensures old(IsLoaded()) ==> IsLoaded()
      ensures world.loaded - {(x, z)} == old(world.loaded) - {(x, z)}
    {
      var success: bool :| true;
      if success {
        world.loaded := world.loaded + {(x, z)};
      }
      ok := (x, z) in world.loaded;
    }

    /**
     * `Chunk.unload()`: the host tries to unload the chunk and reports
     * whether it is unloaded afterwards. An unloaded chunk stays unloaded,
     * and no other cell changes.
     */
    method Unload() returns (ok: bool)
      modifies world`loaded
      ensures ok <==> !IsLoaded()
      ensures !old(IsLoaded()) ==> !IsLoaded()
      ensures world.loaded - {(x, z)} == old(world.loaded) - {(x, z)}
    {
      var success: bool :| true;
      if success {
        world.loaded := world.loaded - {(x, z)};
      }
      ok := (x, z) !in world.loaded;
    }
  }

  /** A world: the chunks handed out so far, which cells are loaded, and how often a chunk was looked up. */
  class World {
    /** `World.hashCode()`. */
    const hash: int32
    var cells: map<(int32, int32), Chunk>
    var loaded: set<(int32, int32)>
    /** The number of calls of `getChunkAt` so far. */
    ghost var lookups: nat

    /** Every chunk handed out belongs to this world and sits at its own coordinates. */
    ghost predicate Valid()
      reads this
    {
      forall key | key in cells :: cells[key].world == this && cells[key].x == key.0 && cells[key].z == key.1
    }

    constructor (hash: int32)
      ensures Valid()
      ensures this.hash == hash && cells == map[] && loaded == {} && lookups == 0
    {
      this.hash := hash;
      cells := map[];
      loaded := {};
      lookups := 0;
    }

    /**
     * `World.getChunkAt(x, z)`: the chunk at those coordinates, the one
     * handed out before if there is one. Each call counts as one lookup.
     */
    method GetChunkAt(x: int32, z: int32) returns (c: Chunk)
      requires Valid()
      modifies this`cells, this`lookups
      ensures Valid()
      ensures c.world == this && c.x == x && c.z == z
      ensures lookups == old(lookups) + 1
      ensures (x, z) in old(cells) ==> c == old(cells)[(x, z)] && cells == old(cells)
      ensures (x, z) !in old(cells) ==> fresh(c) && cells == old(cells)[(x, z) := c]
    {
      lookups := lookups + 1;
      if (x, z) in cells {
        c := cells[(x, z)];
      } else {
        c := new Chunk(this, x, z);
        cells := cells[(x, z) := c];
      }
    }
  }
}
