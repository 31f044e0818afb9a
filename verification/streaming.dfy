/**
 The streaming pass of VoxelSystem (src/Voxels/voxelSystem.cpp, Update and
 UnloadDistantChunks): around the player's chunk, create every missing
 chunk of the (2r+1)^3 box in x, y, z loop order, then drop every chunk
 more than r+1 chunks away on some axis, cleaning its mesh first.
 */
module Streaming {
  import opened Base
  import opened Components
  import opened ChunkStore
  import BiomeGen

  /** `std::max(world.simulationRadius, world.renderRadius)`. */
  function Radius(simulationRadius: int, renderRadius: int): (r: int)
    ensures r >= simulationRadius && r >= renderRadius
    ensures r == simulationRadius || r == renderRadius
  {
    if simulationRadius >= renderRadius then simulationRadius else renderRadius
  }

  /** Chunk `c` lies within `r` chunks of `center` on every axis. */
  predicate InBox(c: IVec3, center: IVec3, r: int) {
    Abs(c.x - center.x) <= r && Abs(c.y - center.y) <= r && Abs(c.z - center.z) <= r
  }

  /** The unload test: more than r+1 chunks away on some axis. */
  predicate Far(c: IVec3, center: IVec3, r: int) {
    Abs(c.x - center.x) > r + 1 || Abs(c.y - center.y) > r + 1 || Abs(c.z - center.z) > r + 1
  }

  /** A `for (k = lo; k <= hi; k++)` loop that emits f(k) on each pass: the
      concatenation f(lo) + f(lo + 1) + ... + f(hi). */
  function ForRange<T>(lo: int, hi: int, f: int -> seq<T>): seq<T>
    decreases hi - lo + 1
  {
    if lo > hi then [] else f(lo) + ForRange(lo + 1, hi, f)
  }

  /** The loop emits exactly what some pass emits. */
  lemma {:induction false} ForRangeMembers<T>(lo: int, hi: int, f: int -> seq<T>, a: T)
    ensures a in ForRange(lo, hi, f) <==> exists k :: lo <= k <= hi && a in f(k)
    decreases hi - lo + 1
  {
    if lo <= hi {
      ForRangeMembers(lo + 1, hi, f, a);
    }
  }

  /** The innermost loop: offsets (x, y, -r..r). */
  function ZLine(center: IVec3, x: int, y: int, r: int): seq<IVec3> {
    ForRange(-r, r, z => [center.Plus(IVec3(x, y, z))])
  }

  /** The middle loop: offsets (x, -r..r, -r..r). */
  function YPlane(center: IVec3, x: int, r: int): seq<IVec3> {
    ForRange(-r, r, y => ZLine(center, x, y, r))
  }

  /** The coordinates Update visits, in its loop order: offsets
      (-r..r, -r..r, -r..r), x outermost. */
  function LoadOrder(center: IVec3, r: int): seq<IVec3> {
    ForRange(-r, r, x => YPlane(center, x, r))
  }

  lemma ZLineMembers(center: IVec3, x: int, y: int, r: int, c: IVec3)
    ensures c in ZLine(center, x, y, r) <==>
      c.x - center.x == x && c.y - center.y == y && -r <= c.z - center.z <= r
  {
    var f := z => [center.Plus(IVec3(x, y, z))];
    ForRangeMembers(-r, r, f, c);
    if c.x - center.x == x && c.y - center.y == y && -r <= c.z - center.z <= r {
      assert c in f(c.z - center.z);
    }
  }

  lemma YPlaneMembers(center: IVec3, x: int, r: int, c: IVec3)
    ensures c in YPlane(center, x, r) <==>
      c.x - center.x == x && -r <= c.y - center.y <= r && -r <= c.z - center.z <= r
  {
    var f := y => ZLine(center, x, y, r);
    ForRangeMembers(-r, r, f, c);
    ZLineMembers(center, x, c.y - center.y, r, c);
    if c.x - center.x == x && -r <= c.y - center.y <= r && -r <= c.z - center.z <= r {
      assert c in f(c.y - center.y);
    }
    if c in YPlane(center, x, r) {
      var y :| -r <= y <= r && c in f(y);
      ZLineMembers(center, x, y, r, c);
    }
  }

  /** The three nested loops visit exactly the chunks of the box. */
  lemma LoadOrderIsBox(center: IVec3, r: int, c: IVec3)
    ensures c in LoadOrder(center, r) <==> InBox(c, center, r)
  {
    var f := x => YPlane(center, x, r);
    ForRangeMembers(-r, r, f, c);
    YPlaneMembers(center, c.x - center.x, r, c);
    if InBox(c, center, r) {
      assert c in f(c.x - center.x);
    }
    if c in LoadOrder(center, r) {
      var x :| -r <= x <= r && c in f(x);
      YPlaneMembers(center, x, r, c);
    }
  }

  /** The loop body of Update over the visited coordinates: create each
      chunk that does not exist yet with the system's generator. The first
      exception stops the pass. */
  function LoadMissing<E>(w: World, coords: seq<IVec3>, gen: IVec3 -> Result<seq<nat>, E>): (r: Result<World, Thrown<E>>)
    requires Valid(w) && FillsChunks(gen, w.dims)
    ensures r.Success? ==> Valid(r.value)
    ensures r.Success? ==> r.value.dims == w.dims && r.value.registry == w.registry && r.value.airVoxel == w.airVoxel
    decreases |coords|
  {
    if coords == [] then Success(w)
    else
      var c := coords[0];
      var w1 :- if ChunkExists(w, c) then Success(w) else CreateChunk(w, c, gen);
      LoadMissing(w1, coords[1..], gen)
  }

  /** Loading keeps every existing chunk as it was, adds every visited
      coordinate, and adds nothing else; each added chunk awaits meshing. */
  lemma {:induction false} LoadMissingEffect<E>(w: World, coords: seq<IVec3>, gen: IVec3 -> Result<seq<nat>, E>)
    requires Valid(w) && FillsChunks(gen, w.dims) && LoadMissing(w, coords, gen).Success?
    ensures var r := LoadMissing(w, coords, gen).value;
      && (forall c :: c in coords ==> c in r.chunks)
      && (forall c :: c in w.chunks ==> c in r.chunks && r.chunks[c] == w.chunks[c])
      && (forall c :: c in r.chunks ==> c in w.chunks || c in coords)
      && (forall c :: c in r.chunks && c !in w.chunks ==> r.chunks[c].chunk.chunkState == NeedsMeshing && r.chunks[c].mesh.None?)
      && (forall c :: c in r.chunks && c !in w.chunks ==> gen(c).Success? && r.chunks[c].chunk.voxelData == gen(c).value)
    decreases |coords|
  {
    if coords != [] {
      var c := coords[0];
      var step := if ChunkExists(w, c) then Success(w) else CreateChunk(w, c, gen);
      var w1 := step.value;
      LoadMissingEffect(w1, coords[1..], gen);
      forall k | k in coords
        ensures k in LoadMissing(w, coords, gen).value.chunks
      {
        if k != c {
          assert k in coords[1..];
        }
      }
    }
  }

  /** When generation throws, the exception is the generator's for a visited
      chunk that was missing; that chunk is already in the map, and every
      chunk loaded before stays as it was. */
  lemma {:induction false} LoadMissingAborted<E>(w: World, coords: seq<IVec3>, gen: IVec3 -> Result<seq<nat>, E>)
    requires Valid(w) && FillsChunks(gen, w.dims) && LoadMissing(w, coords, gen).Failure?
    ensures var t := LoadMissing(w, coords, gen).error;
      && t.world.dims == w.dims
      && (forall c :: c in w.chunks ==> c in t.world.chunks && t.world.chunks[c] == w.chunks[c])
      && (forall c :: c in t.world.chunks ==> c in w.chunks || c in coords)
      && (exists c :: c in coords && c !in w.chunks && c in t.world.chunks && gen(c).Failure? && t.error == gen(c).error
                     && t.world.chunks[c].chunk.chunkState == NeedsMeshing)
    decreases |coords|
  {
    var c := coords[0];
    var t := LoadMissing(w, coords, gen).error;
    if ChunkExists(w, c) {
      LoadMissingAborted(w, coords[1..], gen);
      var k :| k in coords[1..] && k !in w.chunks && k in t.world.chunks && gen(k).Failure? && t.error == gen(k).error
               && t.world.chunks[k].chunk.chunkState == NeedsMeshing;
      assert k in coords;
    } else if gen(c).Failure? {
      assert t == CreateChunk(w, c, gen).error;
    } else {
      var w1 := CreateChunk(w, c, gen).value;
      LoadMissingAborted(w1, coords[1..], gen);
      var k :| k in coords[1..] && k !in w1.chunks && k in t.world.chunks && gen(k).Failure? && t.error == gen(k).error
               && t.world.chunks[k].chunk.chunkState == NeedsMeshing;
      assert k in coords;
      forall k | k in t.world.chunks ensures k in w.chunks || k in coords {
        if k !in w1.chunks { assert k in coords[1..]; }
      }
    }
  }

  /** UnloadDistantChunks' outcome: the remaining world and the chunks whose
      mesh was cleaned before their entity was destroyed. */
  datatype Unloaded = Unloaded(world: World, cleaned: set<IVec3>)

  /** VoxelSystem::UnloadDistantChunks. */
  function UnloadDistantChunks(w: World, center: IVec3, r: int): (u: Unloaded)
    ensures u.world.dims == w.dims && u.world.registry == w.registry && u.world.airVoxel == w.airVoxel
    ensures forall c :: c in u.world.chunks <==> c in w.chunks && !Far(c, center, r)
    ensures forall c :: c in u.world.chunks ==> u.world.chunks[c] == w.chunks[c]
    ensures forall c :: c in u.cleaned <==> c in w.chunks && Far(c, center, r) && w.chunks[c].mesh.Some?
  {
    var kept := map c | c in w.chunks && !Far(c, center, r) :: w.chunks[c];
    var cleaned := set c | c in w.chunks && Far(c, center, r) && w.chunks[c].mesh.Some?;
    Unloaded(w.(chunks := kept), cleaned)
  }

  /** Unloading keeps the world valid, and a second pass around the same
      chunk removes and cleans nothing. */
  lemma UnloadIdempotent(w: World, center: IVec3, r: int)
    requires Valid(w)
    ensures Valid(UnloadDistantChunks(w, center, r).world)
    ensures var once := UnloadDistantChunks(w, center, r).world;
      UnloadDistantChunks(once, center, r) == Unloaded(once, {})
  {
    var once := UnloadDistantChunks(w, center, r).world;
    var twice := UnloadDistantChunks(once, center, r);
    assert twice.world.chunks == once.chunks;
    assert twice.cleaned == {};
  }

  /** VoxelSystem::Update: the player's chunk, the load pass over the box,
      then the unload pass. An exception from the generator skips the unload. */
  function Update<E>(w: World, playerPos: Vec3, simulationRadius: int, renderRadius: int,
                     gen: IVec3 -> Result<seq<nat>, E>): (res: Result<Unloaded, Thrown<E>>)
    requires Valid(w) && FillsChunks(gen, w.dims)
    ensures res.Success? ==> Valid(res.value.world)
    ensures res.Success? ==> res.value.world.dims == w.dims && res.value.world.registry == w.registry
  {
    var center := WorldToChunk(w.dims, playerPos);
    var r := Radius(simulationRadius, renderRadius);
    var loaded :- LoadMissing(w, LoadOrder(center, r), gen);
    UnloadIdempotent(loaded, center, r);
    Success(UnloadDistantChunks(loaded, center, r))
  }

  /** After a successful pass every chunk of the box around the player is
      loaded, nothing beyond r+1 remains, surviving chunks are untouched,
      new chunks come from the box and await meshing, and only meshes of
      pre-existing far chunks are cleaned. */
  lemma UpdateCoversBox<E>(w: World, playerPos: Vec3, simulationRadius: int, renderRadius: int, gen: IVec3 -> Result<seq<nat>, E>)
    requires Valid(w) && FillsChunks(gen, w.dims) && Update(w, playerPos, simulationRadius, renderRadius, gen).Success?
    ensures var center, r := WorldToChunk(w.dims, playerPos), Radius(simulationRadius, renderRadius);
      var u := Update(w, playerPos, simulationRadius, renderRadius, gen).value;
      && (forall c :: InBox(c, center, r) ==> c in u.world.chunks)
      && (forall c :: c in u.world.chunks ==> !Far(c, center, r))
      && (forall c :: c in w.chunks && !Far(c, center, r) ==> c in u.world.chunks && u.world.chunks[c] == w.chunks[c])
      && (forall c :: c in u.world.chunks && c !in w.chunks ==> InBox(c, center, r) && u.world.chunks[c].chunk.chunkState == NeedsMeshing)
      && (forall c :: c in u.cleaned ==> c in w.chunks && Far(c, center, r))
  {
    var center, r := WorldToChunk(w.dims, playerPos), Radius(simulationRadius, renderRadius);
    var order := LoadOrder(center, r);
    LoadMissingEffect(w, order, gen);
    var loaded := LoadMissing(w, order, gen).value;
    var u := UnloadDistantChunks(loaded, center, r);
    assert Update(w, playerPos, simulationRadius, renderRadius, gen).value == u;
    forall c | InBox(c, center, r)
      ensures c in u.world.chunks
    {
      LoadOrderIsBox(center, r, c);
    }
    forall c | c in u.world.chunks && c !in w.chunks
      ensures InBox(c, center, r)
    {
      LoadOrderIsBox(center, r, c);
    }
  }

  /** DefaultVoxelSystem's override of GenerateVoxelData, which CreateChunk
      reaches through the virtual call. */
  function BiomeGenerator(t: BiomeGen.BiomeTable, order: seq<string>, features: (int, int) -> BiomeGen.Features,
                          terrainHeight: BiomeGen.Features -> int, waterLevel: int): IVec3 -> Result<seq<nat>, BiomeGen.BiomeError>
    requires BiomeGen.IsOrder(t, order)
  {
    (c: IVec3) => BiomeGen.GenerateChunk(c, t, order, features, terrainHeight, waterLevel)
  }

  /** With no biome registered, a pass that finds the player's chunk missing
      throws "No biomes registered" from the first chunk it creates; that
      chunk stays in the map, and the chunks loaded before are kept. */
  lemma UpdateWithoutBiomes(w: World, playerPos: Vec3, simulationRadius: int, renderRadius: int,
                            features: (int, int) -> BiomeGen.Features, terrainHeight: BiomeGen.Features -> int, waterLevel: int)
    requires Valid(w) && w.dims == BiomeGen.ChunkDims
    requires WorldToChunk(w.dims, playerPos) !in w.chunks && Radius(simulationRadius, renderRadius) >= 0
    ensures var gen := BiomeGenerator(map[], [], features, terrainHeight, waterLevel);
      FillsChunks(gen, w.dims)
      && var res := Update(w, playerPos, simulationRadius, renderRadius, gen);
      && res.Failure? && res.error.error == BiomeGen.NoBiomesRegistered
      && (exists c :: c !in w.chunks && c in res.error.world.chunks && res.error.world.chunks[c].chunk.chunkState == NeedsMeshing)
      && (forall c :: c in w.chunks ==> c in res.error.world.chunks && res.error.world.chunks[c] == w.chunks[c])
  {
    var gen := BiomeGenerator(map[], [], features, terrainHeight, waterLevel);
    var center, r := WorldToChunk(w.dims, playerPos), Radius(simulationRadius, renderRadius);
    var order := LoadOrder(center, r);
    LoadOrderIsBox(center, r, center);
    assert center in order;
    assert FillsChunks(gen, w.dims);
    var res := LoadMissing(w, order, gen);
    if res.Success? {
      LoadMissingEffect(w, order, gen);
      assert false;
    }
    LoadMissingAborted(w, order, gen);
    var t := res.error;
    var c :| c in order && c !in w.chunks && c in t.world.chunks && gen(c).Failure? && t.error == gen(c).error
             && t.world.chunks[c].chunk.chunkState == NeedsMeshing;
    assert Update(w, playerPos, simulationRadius, renderRadius, gen) == Failure(t);
  }
}
