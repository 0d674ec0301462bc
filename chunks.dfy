/**
 * The chunk handle: a world plus chunk coordinates that fix its identity, and
 * a cache for the host's chunk that is filled on first use.
 */
module Chunks {
  import opened JavaInt
  import opened Host

  datatype Option<T> = None | Some(value: T)

  /**
   * The eight neighbouring cell offsets (dx, dz) in the order the handle
   * lists its neighbours: the row above, left to right, then left and
   * right, then the row below.
   */
  const NeighbourOffsets: seq<(int, int)> :=
    [(-1, -1), (0, -1), (1, -1), (-1, 0), (1, 0), (-1, 1), (0, 1), (1, 1)]

  /** Neighbour `i` of cell (x, z), with the coordinates computed in `int` arithmetic. */
  function Neighbour(x: int32, z: int32, i: nat): (int32, int32)
    requires i < 8
  {
    (Add(x, NeighbourOffsets[i].0 as int32), Add(z, NeighbourOffsets[i].1 as int32))
  }

  /** The offsets are the eight non-zero steps of at most one cell in each direction, each once. */
  lemma OffsetsAreTheRing()
    ensures forall i :: 0 <= i < 8 ==> NeighbourOffsets[i] != (0, 0)
    ensures forall i, j :: 0 <= i < j < 8 ==> NeighbourOffsets[i] != NeighbourOffsets[j]
    ensures forall dx, dz :: -1 <= dx <= 1 && -1 <= dz <= 1 && (dx, dz) != (0, 0) ==>
      (dx, dz) in NeighbourOffsets
  {
  }

  /** Adding different steps of at most one to the same `int` gives different results, even at the edge of the range. */
  lemma AddStepInjective(a: int32, d: int, e: int)
    requires -1 <= d <= 1 && -1 <= e <= 1
    ensures Add(a, d as int32) == Add(a, e as int32) <==> d == e
  {
    if d != e {
      AddSmallOffsetsDiffer(a, d as int32, e as int32);
    }
  }

  /**
   * The eight neighbours are eight different cells and none is the cell
   * itself, for every (x, z) — also where the coordinates overflow.
   */
  lemma NeighboursDistinct(x: int32, z: int32)
    ensures forall i, j :: 0 <= i < j < 8 ==> Neighbour(x, z, i) != Neighbour(x, z, j)
    ensures forall i :: 0 <= i < 8 ==> Neighbour(x, z, i) != (x, z)
  {
    OffsetsAreTheRing();
    forall i, j | 0 <= i < j < 8
      ensures Neighbour(x, z, i) != Neighbour(x, z, j)
    {
      AddStepInjective(x, NeighbourOffsets[i].0, NeighbourOffsets[j].0);
      AddStepInjective(z, NeighbourOffsets[i].1, NeighbourOffsets[j].1);
    }
    forall i | 0 <= i < 8
      ensures Neighbour(x, z, i) != (x, z)
    {
      AddStepInjective(x, NeighbourOffsets[i].0, 0);
      AddStepInjective(z, NeighbourOffsets[i].1, 0);
    }
  }

  /** Away from the edge of the `int` range, neighbour `i` is the cell offset by exactly `NeighbourOffsets[i]`. */
  lemma NeighbourExact(x: int32, z: int32, i: nat)
    requires MinValue < x as int < MaxValue && MinValue < z as int < MaxValue
    requires i < 8
    ensures Neighbour(x, z, i).0 as int == x as int + NeighbourOffsets[i].0
    ensures Neighbour(x, z, i).1 as int == z as int + NeighbourOffsets[i].1
  {
    var (dx, dz) := NeighbourOffsets[i];
    assert -1 <= dx <= 1 && -1 <= dz <= 1 by { OffsetsAreTheRing(); assert NeighbourOffsets[i] in NeighbourOffsets; OffsetsBounded(); }
  }

  /** Every offset is a step of at most one cell in each direction. */
  lemma OffsetsBounded()
    ensures forall d :: d in NeighbourOffsets ==> -1 <= d.0 <= 1 && -1 <= d.1 <= 1
  {
  }

  /** Away from the edge of the `int` range, every neighbour is offset from (x, z) by its step, without wrap-around. */
  lemma NeighboursExact(x: int32, z: int32)
    requires MinValue < x as int < MaxValue && MinValue < z as int < MaxValue
    ensures forall i :: 0 <= i < 8 ==>
      Neighbour(x, z, i).0 as int == x as int + NeighbourOffsets[i].0 &&
      Neighbour(x, z, i).1 as int == z as int + NeighbourOffsets[i].1
  {
    forall i | 0 <= i < 8
      ensures Neighbour(x, z, i).0 as int == x as int + NeighbourOffsets[i].0
      ensures Neighbour(x, z, i).1 as int == z as int + NeighbourOffsets[i].1
    {
      NeighbourExact(x, z, i);
    }
  }

  /**
   * Away from the edge of the `int` range every cell around (x, z) is one
   * of its neighbours: together with `OffsetsAreTheRing` and
   * `NeighboursExact`, the neighbours are exactly the eight cells around it.
   */
  lemma NeighboursCoverRing(x: int32, z: int32, dx: int, dz: int)
    requires MinValue < x as int < MaxValue && MinValue < z as int < MaxValue
    requires -1 <= dx <= 1 && -1 <= dz <= 1 && (dx, dz) != (0, 0)
    ensures exists i :: 0 <= i < 8 && Neighbour(x, z, i).0 as int == x as int + dx && Neighbour(x, z, i).1 as int == z as int + dz
  {
    var i := RingIndex(dx, dz);
    NeighbourExact(x, z, i);
  }

  /** The position of step (dx, dz) in `NeighbourOffsets`. */
  lemma RingIndex(dx: int, dz: int) returns (i: nat)
    requires -1 <= dx <= 1 && -1 <= dz <= 1 && (dx, dz) != (0, 0)
    ensures i < 8 && NeighbourOffsets[i] == (dx, dz)
  {
    OffsetsAreTheRing();
    i :| 0 <= i < |NeighbourOffsets| && NeighbourOffsets[i] == (dx, dz);
  }

  /** At the largest `int` x coordinate the right-hand neighbours wrap round to the smallest. */
  lemma NeighboursWrapAtEdge(z: int32)
    requires MinValue < z as int < MaxValue
    ensures Neighbour(MaxValue as int32, z, 2) == (MinValue as int32, Add(z, -1))
    ensures Neighbour(MaxValue as int32, z, 4) == (MinValue as int32, z)
    ensures Neighbour(MaxValue as int32, z, 7) == (MinValue as int32, Add(z, 1))
  {
  }

  /** The neighbours of cell (0, 0), in order. */
  lemma NeighboursOfOrigin()
    ensures Neighbour(0, 0, 0) == (-1, -1) && Neighbour(0, 0, 1) == (0, -1)
    ensures Neighbour(0, 0, 2) == (1, -1) && Neighbour(0, 0, 3) == (-1, 0)
    ensures Neighbour(0, 0, 4) == (1, 0) && Neighbour(0, 0, 5) == (-1, 1)
    ensures Neighbour(0, 0, 6) == (0, 1) && Neighbour(0, 0, 7) == (1, 1)
  {
  }

  /** The players among `es`, in their order: the `instanceof Player` filter. */
  function Players(es: seq<Entity>): (ps: seq<Player>)
    ensures |ps| <= |es|
    ensures forall e :: e in ps <==> e in es && e.PlayerEntity?
  {
    if es == [] then []
    else if es[0].PlayerEntity? then [es[0]] + Players(es[1..])
    else Players(es[1..])
  }

  /** Filtering distributes over concatenation, so the players keep their relative order. */
  lemma {:induction false} PlayersAppend(a: seq<Entity>, b: seq<Entity>)
    ensures Players(a + b) == Players(a) + Players(b)
    decreases |a|
  {
    if a == [] {
      assert a + b == b;
    } else {
      assert (a + b)[1..] == a[1..] + b;
      PlayersAppend(a[1..], b);
    }
  }

  /** Every player occurs in the result as often as in the input, and nothing else occurs. */
  lemma {:induction false} PlayersCount(es: seq<Entity>, e: Entity)
    ensures multiset(Players(es))[e] == if e.PlayerEntity? then multiset(es)[e] else 0
    decreases |es|
  {
    if es != [] {
      assert es == [es[0]] + es[1..];
      PlayersCount(es[1..], e);
    }
  }

  /** A list of players only is kept whole. */
  lemma {:induction false} PlayersOfPlayers(es: seq<Entity>)
    requires forall i :: 0 <= i < |es| ==> es[i].PlayerEntity?
    ensures Players(es) == es
    decreases |es|
  {
    if es != [] {
      PlayersOfPlayers(es[1..]);
    }
  }

  /** A chunk with three players and two other entities yields the three players, in order. */
  lemma PlayersExample()
    ensures Players([PlayerEntity(1), OtherEntity(2), PlayerEntity(3), OtherEntity(4), PlayerEntity(5)])
      == [PlayerEntity(1), PlayerEntity(3), PlayerEntity(5)]
  {
  }

  /**
   * A handle on one chunk of one world. Its world and coordinates never
   * change; the host's chunk is looked up the first time it is needed and
   * kept from then on.
   */
  class ChunkWrapper {
    const world: World
    const x: int32
    const z: int32
    var chunk: Option<Chunk>

    /** A cached chunk is the host's chunk at this handle's own world and coordinates. */
    ghost predicate Valid()
      reads this
    {
      chunk.Some? ==> chunk.value.world == world && chunk.value.x == x && chunk.value.z == z
    }

    /** A handle on (world, x, z) that looks the chunk up when first needed. */
    constructor (world: World, x: int32, z: int32)
      ensures this.world == world && this.x == x && this.z == z
      ensures chunk == None
      ensures Valid()
    {
      this.world := world;
      this.x := x;
      this.z := z;
      chunk := None;
    }

    /** A handle on a chunk the caller already has; it takes its world and coordinates from the chunk. */
    constructor FromChunk(c: Chunk)
      ensures world == c.world && x == c.x && z == c.z
      ensures chunk == Some(c)
      ensures Valid()
    {
      world := c.world;
      x := c.x;
      z := c.z;
      chunk := Some(c);
    }

    /** `of(world, x, z)`: a new handle, not yet resolved. */
    static method Of(world: World, x: int32, z: int32) returns (w: ChunkWrapper)
      ensures fresh(w)
      ensures w.world == world && w.x == x && w.z == z && w.chunk == None
      ensures w.Valid()
    {
      w := new ChunkWrapper(world, x, z);
    }

    /** `wrap(chunk)`: a new handle that already holds `c`. */
    static method Wrap(c: Chunk) returns (w: ChunkWrapper)
      ensures fresh(w)
      ensures w.world == c.world && w.x == c.x && w.z == c.z && w.chunk == Some(c)
      ensures w.Valid()
    {
      w := new ChunkWrapper.FromChunk(c);
    }

    /**
     * One resolution of the chunk, between the old and the new state: the
     * cache now holds the chunk at this handle's coordinates; if it was
     * already filled, nothing changed and the host was not asked; if it was
     * empty, the host was asked exactly once, for this handle's own cell.
     */
    twostate predicate Resolved()
      reads this, world
    {
      && chunk.Some?
      && chunk.value.world == world && chunk.value.x == x && chunk.value.z == z
      && world.Valid()
      && (old(chunk).Some? ==>
            chunk == old(chunk) && world.cells == old(world.cells) && world.lookups == old(world.lookups))
      && (old(chunk).None? ==>
            world.lookups == old(world.lookups) + 1 &&
            ((x, z) in old(world.cells) ==> chunk.value == old(world.cells)[(x, z)]) &&
            world.cells == old(world.cells)[(x, z) := chunk.value])
    }

    /** `getChunk()`: the cached chunk, looked up in the world on the first call only. */
    method GetChunk() returns (c: Chunk)
      requires Valid() && world.Valid()
      modifies this`chunk, world`cells, world`lookups
      ensures Valid() && Resolved()
      ensures chunk == Some(c)
    {
      if chunk.None? {
        var found := world.GetChunkAt(x, z);
        chunk := Some(found);
      }
      c := chunk.value;
    }

    /** `isLoaded()`: whether the resolved chunk is loaded. */
    method IsLoaded() returns (b: bool)
      requires Valid() && world.Valid()
      modifies this`chunk, world`cells, world`lookups
      ensures Valid() && Resolved()
      ensures b <==> (x, z) in world.loaded
    {
      var c := GetChunk();
      b := c.IsLoaded();
    }

    /** `load()`: asks the resolved chunk to load; true when it is loaded afterwards. */
    method Load() returns (ok: bool)
      requires Valid() && world.Valid()
      modifies this`chunk, world`cells, world`lookups, world`loaded
      ensures Valid() && Resolved()
      ensures ok <==> (x, z) in world.loaded
      ensures (x, z) in old(world.loaded) ==> ok
      ensures world.loaded - {(x, z)} == old(world.loaded) - {(x, z)}
    {
      var c := GetChunk();
      ok := c.Load();
    }

    /** `unload()`: asks the resolved chunk to unload; true when it is unloaded afterwards. */
    method Unload() returns (ok: bool)
      requires Valid() && world.Valid()
      modifies this`chunk, world`cells, world`lookups, world`loaded
      ensures Valid() && Resolved()
      ensures ok <==> (x, z) !in world.loaded
      ensures (x, z) !in old(world.loaded) ==> ok
      ensures world.loaded - {(x, z)} == old(world.loaded) - {(x, z)}
    {
      var c := GetChunk();
      ok := c.Unload();
    }

    /** `getEntities()`: the entities of the resolved chunk, as the host reports them. */
    method GetEntities() returns (es: seq<Entity>)
      requires Valid() && world.Valid()
      modifies this`chunk, world`cells, world`lookups
      ensures Valid() && Resolved()
      ensures es == chunk.value.entities
    {
      var c := GetChunk();
      es := c.entities;
    }

    /** `getPlayers()`: the players among the resolved chunk's entities, in their order. */
    method GetPlayers() returns (ps: seq<Player>)
      requires Valid() && world.Valid()
      modifies this`chunk, world`cells, world`lookups
      ensures Valid() && Resolved()
      ensures ps == Players(chunk.value.entities)
      ensures forall e :: e in ps <==> e in chunk.value.entities && e.PlayerEntity?
    {
      var es := GetEntities();
      ps := Players(es);
    }

    /**
     * `getAdjacentChunks()`: eight new, unresolved handles in the same
     * world, one per neighbouring cell in the order of `NeighbourOffsets`.
     */
    method GetAdjacentChunks() returns (adjacent: seq<ChunkWrapper>)
      ensures |adjacent| == 8
      ensures forall i :: 0 <= i < 8 ==>
        fresh(adjacent[i]) && adjacent[i].world == world &&
        (adjacent[i].x, adjacent[i].z) == Neighbour(x, z, i) &&
        adjacent[i].chunk == None && adjacent[i].Valid()
      ensures forall i, j :: 0 <= i < j < 8 ==> !adjacent[i].Equals(adjacent[j])
      ensures forall i :: 0 <= i < 8 ==> !adjacent[i].Equals(this)
    {
      var xOffsets: seq<int32> := [-1, 0, 1, -1, 1, -1, 0, 1];
      var zOffsets: seq<int32> := [-1, -1, -1, 0, 0, 1, 1, 1];
      adjacent := [];
      for i := 0 to 8
        invariant |adjacent| == i
        invariant forall k :: 0 <= k < i ==>
          fresh(adjacent[k]) && adjacent[k].world == world &&
          (adjacent[k].x, adjacent[k].z) == Neighbour(x, z, k) &&
          adjacent[k].chunk == None && adjacent[k].Valid()
      {
        var surroundingX := Add(x, xOffsets[i]);
        var surroundingZ := Add(z, zOffsets[i]);
        var wrapper := new ChunkWrapper(world, surroundingX, surroundingZ);
        adjacent := adjacent + [wrapper];
      }
      NeighboursDistinct(x, z);
    }

    /**
     * `equals(o)`: the same object, or another handle on the same world
     * and coordinates; whether either handle has resolved its chunk plays
     * no part.
     */
    predicate Equals(o: object)
      ensures Equals(o) <==> (o is ChunkWrapper && world == (o as ChunkWrapper).world
        && x == (o as ChunkWrapper).x && z == (o as ChunkWrapper).z)
    {
      this == o || (o is ChunkWrapper && x == (o as ChunkWrapper).x && z == (o as ChunkWrapper).z
        && world == (o as ChunkWrapper).world)
    }

    /**
     * `hashCode()`: `Objects.hash(world, x, z)`, that is
     * `31^3 + 31^2 * world.hashCode() + 31 * x + z` reduced to 32 bits.
     */
    function HashCode(): (h: int32)
      ensures Congruent(h as int, 29791 + 961 * world.hash as int + 31 * x as int + z as int)
    {
      var hs := [world.hash, x, z];
      assert Pow31(3) == 29791 && Pow31(2) == 961 && Pow31(1) == 31;
      assert Weighted(hs[1..][1..]) == z as int + Weighted([]);
      assert Weighted(hs[1..]) == 31 * x as int + Weighted(hs[1..][1..]);
      assert Weighted(hs) == 961 * world.hash as int + Weighted(hs[1..]);
      assert HashPolynomial(hs) == 29791 + 961 * world.hash as int + 31 * x as int + z as int;
      HashAll(hs)
    }
  }

  /** Two handles are equal exactly when they name the same world and coordinates. */
  lemma EqualsIffSameCell(a: ChunkWrapper, b: ChunkWrapper)
    ensures a.Equals(b) <==> a.world == b.world && a.x == b.x && a.z == b.z
  {
  }

  /** Equality of handles is an equivalence relation. */
  lemma EqualsIsEquivalence(a: ChunkWrapper, b: ChunkWrapper, c: ChunkWrapper)
    ensures a.Equals(a)
    ensures a.Equals(b) ==> b.Equals(a)
    ensures a.Equals(b) && b.Equals(c) ==> a.Equals(c)
  {
  }

  /** A handle never equals an object that is not a handle. */
  lemma EqualsOnlyHandles(a: ChunkWrapper, o: object)
    requires !(o is ChunkWrapper)
    ensures !a.Equals(o)
  {
  }

  /** Equal handles have equal hash codes. */
  lemma HashCodeConsistent(a: ChunkWrapper, b: ChunkWrapper)
    ensures a.Equals(b) ==> a.HashCode() == b.HashCode()
  {
  }

  /** Resolving a handle twice asks the host once and gives the same chunk both times. */
  method ResolveTwice(w: ChunkWrapper) returns (first: Chunk, second: Chunk)
    requires w.Valid() && w.world.Valid() && w.chunk == None
    modifies w`chunk, w.world`cells, w.world`lookups
    ensures first == second
    ensures first.world == w.world && first.x == w.x && first.z == w.z
    ensures w.world.lookups == old(w.world.lookups) + 1
    ensures w.Valid() && w.world.Valid()
  {
    first := w.GetChunk();
    second := w.GetChunk();
  }

  /** A handle built from a chunk hands back that chunk without asking the host. */
  method WrapThenGetChunk(c: Chunk) returns (got: Chunk)
    requires c.world.Valid()
    modifies c.world`cells, c.world`lookups
    ensures got == c
    ensures c.world.lookups == old(c.world.lookups) && c.world.cells == old(c.world.cells)
  {
    var w := ChunkWrapper.Wrap(c);
    got := w.GetChunk();
  }

  /** A handle built from a host chunk equals the handle built from that chunk's world and coordinates. */
  method WrapEqualsOf(c: Chunk) returns (wrapped: ChunkWrapper, named: ChunkWrapper)
    ensures wrapped.Equals(named) && named.Equals(wrapped)
    ensures wrapped.HashCode() == named.HashCode()
    ensures wrapped != named
  {
    wrapped := ChunkWrapper.Wrap(c);
    named := ChunkWrapper.Of(c.world, c.x, c.z);
  }
}
