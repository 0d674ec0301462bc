# MineKit core in Dafny

This project models two self-contained pieces of the MineKit library for
Minecraft server plugins:

* **`EnumerationCodec`** (module `EnumerationCodec`, `codec.dfy`) packs a set of
  enum constants into a `long` by setting bit `ordinal` for each member. It
  unpacks a `long` again by keeping each constant of the enum type whose bit
  is set. An enum type is modelled as its number of constants `n <= 64`, and
  a constant as its ordinal in `0 .. n-1`. A code is the unsigned view of
  the `long`, i.e. a `nat` below 2^64. Java's `|` and `&` are `BitOr` and
  `BitAnd`, defined bit by bit, and `1L << i` is `Bit(i)`. `Encode` and
  `Decode` are methods with the loops of the source. They are proved against
  the specification functions `Pack` and `Members`, and the lemmas about
  those give bit membership, both round trips, the dropping of unknown bits
  and order independence.
* **`ChunkWrapper`** (module `Chunks`, `chunks.dfy`) is a handle on one chunk
  (grid cell) of a world. Its identity is the world and the coordinates
  `x`, `z`, which never change. Its one mutable field caches the host's
  chunk, which is looked up on first use. The class keeps the source's
  fields and its methods except those listed under "Left out". `Equals` and `HashCode` depend only on the identity.
  `GetAdjacentChunks` builds the eight neighbouring handles in a loop. The
  `instanceof Player` filter of `getPlayers` is the function `Players`.
* **`JavaInt`** (`java_int.dfy`) holds 32-bit `int` arithmetic with Java's
  wrap-around. `getAdjacentChunks` computes `x + offset` in `int`, and
  `Objects.hash` folds hashes with `31 * h + e` in `int`.
* **`Host`** (`host.dfy`) stands in for the server engine's `World`,
  `Chunk` and `Entity`, which the wrapper calls but which are not part of
  MineKit. A world records:
  * the chunks it has handed out;
  * which cells are loaded;
  * a ghost count of `getChunkAt` calls, so that "looked up once" can be
    stated.

  Whether a `load`/`unload` attempt succeeds is a free choice of the host.

`getWorld()`, `getX()` and `getZ()` are the `const` fields `world`, `x`, `z`.
Dafny's `const` makes their immutability part of the type.

## Model

| member | source | states |
|---|---|---|
| EnumerationCodec.Encode | src/main/java/dev/dutchy/minekit/codec/EnumerationCodec.java:23-32 | starting from 0 and OR-ing in one bit per element, in any iteration order, yields `Pack(s)`; bit `i` of the result is set exactly when `i` is in the set |
| EnumerationCodec.Decode | src/main/java/dev/dutchy/minekit/codec/EnumerationCodec.java:45-58 | going through the constants in ordinal order and testing `code & (1L << ordinal) != 0` keeps exactly the constants whose bit is set |
| EnumerationCodec.PackBelow | src/main/java/dev/dutchy/minekit/codec/EnumerationCodec.java:27-29 | the OR of the bits of the set's ordinals below `k` has bit `i` set exactly when `i < k` and `i` is in the set |
| EnumerationCodec.PackBit | src/main/java/dev/dutchy/minekit/codec/EnumerationCodec.java:27-29 | bit membership: for every ordinal below 64, its bit is set in the code exactly when the set holds it |
| EnumerationCodec.PackEmpty | src/main/java/dev/dutchy/minekit/codec/EnumerationCodec.java:25-31 | the empty set encodes to 0 |
| EnumerationCodec.PackInsert | src/main/java/dev/dutchy/minekit/codec/EnumerationCodec.java:28 | adding an ordinal to the set ORs its bit into the code |
| EnumerationCodec.PackInjective | src/main/java/dev/dutchy/minekit/codec/EnumerationCodec.java:23-32 | sets of ordinals below 64 with the same code are equal |
| EnumerationCodec.DecodeZero | src/main/java/dev/dutchy/minekit/codec/EnumerationCodec.java:48-57 | decoding 0 gives the empty set |
| EnumerationCodec.DecodeIgnoresUnknownBits | src/main/java/dev/dutchy/minekit/codec/EnumerationCodec.java:47-55 | codes that agree on the low `n` bits decode to the same set: bits that name no constant are dropped |
| EnumerationCodec.DecodeEncode | src/test/java/dev/dutchy/minekit/codec/EnumerationCodecTests.java:22-32 | round trip: decoding the code of a set of constants of the type gives back that set |
| EnumerationCodec.EncodeDecode | src/main/java/dev/dutchy/minekit/codec/EnumerationCodec.java:50-55 | encoding a decoded set gives the code masked to its low `n` bits |
| EnumerationCodec.EncodeInOrderIsPack | src/main/java/dev/dutchy/minekit/codec/EnumerationCodec.java:27-29 | the accumulator after visiting any sequence of ordinals is the code of the set of ordinals visited |
| EnumerationCodec.EncodeOrderIrrelevant | src/main/java/dev/dutchy/minekit/codec/EnumerationCodec.java:27-29 | two visiting orders of the same elements give the same code |
| EnumerationCodec.Bit | src/main/java/dev/dutchy/minekit/codec/EnumerationCodec.java:28 | the mask `1L << i` for an ordinal below 64 has exactly bit `i` set |
| EnumerationCodec.BitOrBit | src/main/java/dev/dutchy/minekit/codec/EnumerationCodec.java:28 | Java's bitwise or on the codes: a bit of the result is set exactly when it is set in `a` or in `b` |
| EnumerationCodec.BitAndBit | src/main/java/dev/dutchy/minekit/codec/EnumerationCodec.java:52 | Java's bitwise and on the codes: a bit of the result is set exactly when it is set in both `a` and `b` |
| EnumerationCodec.MaskTest | src/main/java/dev/dutchy/minekit/codec/EnumerationCodec.java:51-52 | `code & (1L << i)` is non-zero exactly when bit `i` of `code` is set |
| EnumerationCodec.WeekdayCode | src/test/java/dev/dutchy/minekit/codec/EnumerationCodecTests.java:12-43 | {MONDAY, TUESDAY, FRIDAY} of the seven-day enum encodes to 19, and 19 decodes back to that set |
| JavaInt.Add | src/main/java/dev/dutchy/minekit/chunk/ChunkWrapper.java:282-283 | `int` addition is exact in range and wraps by 2^32 above `Integer.MAX_VALUE` and below `Integer.MIN_VALUE` |
| JavaInt.Mul | src/main/java/dev/dutchy/minekit/chunk/ChunkWrapper.java:304 | `int` multiplication is exact in range and otherwise the product reduced modulo 2^32 |
| JavaInt.HashAll | src/main/java/dev/dutchy/minekit/chunk/ChunkWrapper.java:304 | the `31 * h + e` fold from 1 that `Objects.hash` computes agrees modulo 2^32 with the polynomial `31^n + hs[0] * 31^(n-1) + ... + hs[n-1]`, and equals it whenever that fits in an `int` |
| Chunks.ChunkWrapper.constructor | src/main/java/dev/dutchy/minekit/chunk/ChunkWrapper.java:42-48 | stores exactly the given world and coordinates and leaves the cache empty |
| Chunks.ChunkWrapper.FromChunk | src/main/java/dev/dutchy/minekit/chunk/ChunkWrapper.java:57-63 | copies the chunk's world and coordinates and pre-fills the cache with that chunk |
| Chunks.ChunkWrapper.Of | src/main/java/dev/dutchy/minekit/chunk/ChunkWrapper.java:75-79 | returns a new, unresolved handle on the given world and coordinates |
| Chunks.ChunkWrapper.Wrap | src/main/java/dev/dutchy/minekit/chunk/ChunkWrapper.java:89-94 | returns a new handle on the chunk's cell that already holds the chunk |
| Chunks.ChunkWrapper.GetChunk | src/main/java/dev/dutchy/minekit/chunk/ChunkWrapper.java:187-193 | afterwards the cache holds the chunk at the handle's own world and coordinates. With a filled cache, that chunk is returned with no host call. With an empty cache, there is exactly one `getChunkAt(x, z)` and its result is cached |
| Chunks.ChunkWrapper.IsLoaded | src/main/java/dev/dutchy/minekit/chunk/ChunkWrapper.java:201-204 | resolves the chunk as `GetChunk` does, then returns whether the host reports it loaded |
| Chunks.ChunkWrapper.Load | src/main/java/dev/dutchy/minekit/chunk/ChunkWrapper.java:212-215 | resolves the chunk, then returns the host's answer: true exactly when the chunk is loaded afterwards; no other cell changes |
| Chunks.ChunkWrapper.Unload | src/main/java/dev/dutchy/minekit/chunk/ChunkWrapper.java:223-226 | resolves the chunk, then returns the host's answer: true exactly when the chunk is unloaded afterwards; no other cell changes |
| Chunks.ChunkWrapper.GetEntities | src/main/java/dev/dutchy/minekit/chunk/ChunkWrapper.java:236-239 | resolves the chunk and returns its entities as the host reports them |
| Chunks.ChunkWrapper.GetPlayers | src/main/java/dev/dutchy/minekit/chunk/ChunkWrapper.java:250-257 | resolves the chunk and returns exactly the players among its entities, in order |
| Chunks.Players | src/main/java/dev/dutchy/minekit/chunk/ChunkWrapper.java:252-256 | an entity is in the result exactly when it is in the input and is a player; the result is no longer than the input |
| Chunks.PlayersAppend | src/main/java/dev/dutchy/minekit/chunk/ChunkWrapper.java:252-256 | filtering a concatenation is the concatenation of the filtered parts, so relative order is kept |
| Chunks.PlayersCount | src/main/java/dev/dutchy/minekit/chunk/ChunkWrapper.java:252-256 | each player occurs in the result as often as in the input, and no other entity occurs |
| Chunks.PlayersOfPlayers | src/main/java/dev/dutchy/minekit/chunk/ChunkWrapper.java:252-256 | a list made only of players is returned unchanged |
| Chunks.PlayersExample | src/main/java/dev/dutchy/minekit/chunk/ChunkWrapper.java:252-256 | three players and two other entities give the three players, in order |
| Chunks.ChunkWrapper.GetAdjacentChunks | src/main/java/dev/dutchy/minekit/chunk/ChunkWrapper.java:270-290 | eight new, unresolved handles in the same world, handle `i` at this cell plus offset `i` in `int` arithmetic; pairwise unequal and none equal to this handle |
| Chunks.OffsetsAreTheRing | src/main/java/dev/dutchy/minekit/chunk/ChunkWrapper.java:277-278 | the offset pairs are the eight non-zero steps of at most one cell, each exactly once |
| Chunks.NeighboursDistinct | src/main/java/dev/dutchy/minekit/chunk/ChunkWrapper.java:261-264 | for every cell, also at the edge of the `int` range, the eight neighbours are different cells and none is the cell itself |
| Chunks.NeighboursExact | src/main/java/dev/dutchy/minekit/chunk/ChunkWrapper.java:280-284 | away from the edge of the `int` range, neighbour `i` is offset by exactly `(xOffset[i], zOffset[i])` |
| Chunks.NeighboursCoverRing | src/test/java/dev/dutchy/minekit/chunk/ChunkWrapperTests.java:62-71 | away from the edge of the `int` range, every cell touching this one is one of its neighbours |
| Chunks.NeighboursOfOrigin | src/test/java/dev/dutchy/minekit/chunk/ChunkWrapperTests.java:51-72 | the neighbours of (0, 0) are (-1,-1), (0,-1), (1,-1), (-1,0), (1,0), (-1,1), (0,1), (1,1), in that order |
| Chunks.NeighboursWrapAtEdge | src/main/java/dev/dutchy/minekit/chunk/ChunkWrapper.java:282 | at `x == Integer.MAX_VALUE` the right-hand neighbours wrap round to `Integer.MIN_VALUE` |
| Chunks.ChunkWrapper.Equals | src/main/java/dev/dutchy/minekit/chunk/ChunkWrapper.java:293-299 | equal to `o` exactly when `o` is a handle with the same x, z and (identical) world; the `this == o` shortcut adds no other case |
| Chunks.ChunkWrapper.HashCode | src/main/java/dev/dutchy/minekit/chunk/ChunkWrapper.java:301-305 | `Objects.hash(world, x, z)`: `31^3 + 31^2 * world.hashCode() + 31 * x + z` reduced modulo 2^32 |
| Chunks.EqualsIffSameCell | src/main/java/dev/dutchy/minekit/chunk/ChunkWrapper.java:296-298 | two handles are equal exactly when their world, x and z are equal, whatever their caches hold |
| Chunks.EqualsOnlyHandles | src/main/java/dev/dutchy/minekit/chunk/ChunkWrapper.java:297 | a handle never equals an object that is not a handle |
| Chunks.EqualsIsEquivalence | src/main/java/dev/dutchy/minekit/chunk/ChunkWrapper.java:293-299 | handle equality is reflexive, symmetric and transitive |
| Chunks.HashCodeConsistent | src/main/java/dev/dutchy/minekit/chunk/ChunkWrapper.java:301-305 | equal handles have equal hash codes |
| Chunks.ResolveTwice | src/main/java/dev/dutchy/minekit/chunk/ChunkWrapper.java:187-193 | two `getChunk` calls on an unresolved handle return the same chunk, at the handle's cell, with one host lookup in all |
| Chunks.WrapThenGetChunk | src/test/java/dev/dutchy/minekit/chunk/ChunkWrapperTests.java:14-29 | a handle built from a chunk returns that chunk from `getChunk` with no host lookup |
| Chunks.WrapEqualsOf | src/test/java/dev/dutchy/minekit/chunk/ChunkWrapperTests.java:32-48 | a handle built from a chunk equals a distinct handle built from the chunk's world and coordinates, in both directions and with equal hash codes |

## Left out

- EnumerationCodec.Encode: requires every ordinal to be below 64. Java would take `1L << ordinal` modulo 64 and fold larger ordinals onto low bits.
- EnumerationCodec.Decode: requires an enum type of at most 64 constants. For a larger type, Java's `1L << e.ordinal()` takes the shift distance modulo 64, so constant 64 would test bit 0, constant 65 bit 1, and so on.
- The sign of the `long`: a code is its unsigned 64-bit view, so a set containing ordinal 63 has a code of 2^63 or more rather than a negative `long`.
- The private constructor of `EnumerationCodec`, which only throws `UnsupportedOperationException`: the codec is a module of functions and methods that is never instantiated.
- `wrap(Entity)`, `wrap(Block)` and `wrap(Location)`: each asks the engine for the chunk of its argument and then does what `Wrap` does. The engine's lookup of an entity's, block's or location's chunk is not part of this model.
- `toString`: string formatting only.
- Chunks.ChunkWrapper.HashCode: the world's own `hashCode` is an arbitrary constant of the host, so the hash is stated as a function of it, not as a fixed number.
- The engine's `World`, `Chunk` and `Entity` are oracles in module `Host`:
  - `World.equals` is object identity.
  - `getChunkAt` hands out the same chunk for the same cell, and it does not model the host loading or generating the chunk.
  - Whether a `load`/`unload` attempt succeeds is not determined.
- Entities are only distinguished as players or not; the cast `(Player) entity` is the subset type `Player`.
- `getEntities`, `getAdjacentChunks` and `getPlayers` return unmodifiable lists; Dafny's sequences are values, so the model returns copies that cannot alias the chunk's list.
- Null arguments: the source only annotates its parameters `@NotNull`, and Dafny's reference types are non-null.
- The unsynchronised cache: concurrent calls of `getChunk` are not modelled, only single-threaded use.
