/**
 The biome generator of DefaultVoxelSystem (Include/defaultGen.hpp):
 biome registration, the feature distance, the nearest-biome choice and the
 per-column classification of a voxel into air, water and the biome's
 surface, filler, stone and bottom blocks.

 Noise values and the terrain-height formula are inputs: `features` gives
 the feature vector of a world column and `terrainHeight` the (already
 truncated) surface height for a feature vector. The biome table is the
 `std::unordered_map` from names to biomes; its iteration order, which C++
 leaves to the hash and the bucket layout, is an input `order` that lists
 every name exactly once.
 */
module BiomeGen {
  import opened Base
  import opened Components

  /** WorldFeatures, with floats as reals. */
  datatype Features = Features(elevation: real, erosion: real, continentalness: real, weirdness: real, temperature: real, humidity: real)

  /** Biome: the six block ids, the two layer depths (uint8) and its feature centre. */
  datatype Biome = Biome(
    airBlock: nat, topBlock: nat, fillerBlock: nat, stoneBlock: nat, waterBlock: nat, bottomBlock: nat,
    topDepth: nat, fillerDepth: nat,
    features: Features)

  /** The `biomes` map. */
  type BiomeTable = map<string, Biome>

  /** `order` is an iteration order of the table: each name once, and only names of the table. */
  ghost predicate IsOrder(t: BiomeTable, order: seq<string>) {
    && (forall i, j :: 0 <= i < j < |order| ==> order[i] != order[j])
    && (forall i :: 0 <= i < |order| ==> order[i] in t)
    && (forall name :: name in t ==> name in order)
  }

  /** addBiome: `emplace` binds the name only when it is new; an existing
      binding is kept. */
  function AddBiome(t: BiomeTable, b: Biome, name: string): (r: BiomeTable)
    ensures r.Keys == t.Keys + {name}
    ensures name in t ==> r[name] == t[name]
    ensures name !in t ==> r[name] == b
    ensures forall k :: k in t ==> r[k] == t[k]
  {
    if name in t then t else t[name := b]
  }

  /** After addBiome the name is registered, and it is bound to the new biome
      only if it was free before: a second registration never replaces. */
  lemma AddBiomeKeepsFirst(t: BiomeTable, b1: Biome, b2: Biome, name: string)
    requires name !in t
    ensures var once := AddBiome(t, b1, name);
      && name in once && once[name] == b1
      && AddBiome(once, b2, name) == once
  {
  }

  /** `s` without its element at position k. */
  function RemoveAt<T>(s: seq<T>, k: nat): (r: seq<T>)
    requires k < |s|
    ensures |r| == |s| - 1
    ensures forall i :: 0 <= i < |r| ==> r[i] == s[if i < k then i else i + 1]
  {
    s[..k] + s[k + 1..]
  }

  /** Registration leaves the iteration order free: any order of the grown
      table, with the new name taken out, is an order of the old one. */
  lemma AddBiomeOrder(t: BiomeTable, b: Biome, name: string, order: seq<string>, k: nat)
    requires name !in t && IsOrder(AddBiome(t, b, name), order)
    requires k < |order| && order[k] == name
    ensures IsOrder(t, RemoveAt(order, k))
  {
    var rest := RemoveAt(order, k);
    forall i, j | 0 <= i < j < |rest| ensures rest[i] != rest[j] {
      var i', j' := if i < k then i else i + 1, if j < k then j else j + 1;
      assert rest[i] == order[i'] && rest[j] == order[j'] && i' < j';
    }
    forall i | 0 <= i < |rest| ensures rest[i] in t {
      var i' := if i < k then i else i + 1;
      assert rest[i] == order[i'] && i' != k;
    }
    forall n | n in t ensures n in rest {
      var i :| 0 <= i < |order| && order[i] == n;
      assert i != k;
      assert rest[if i < k then i else i - 1] == n;
    }
  }

  function Product(a: real, b: real): (r: real)
    ensures a > 0.0 && b > 0.0 ==> r > 0.0
    ensures a == 0.0 ==> r == 0.0
  {
    a * b
  }

  /** x * x, written as |x| * |x| so that its sign follows from Product. */
  function Square(x: real): (r: real)
    ensures r >= 0.0
    ensures r == 0.0 <==> x == 0.0
  {
    var a := if x < 0.0 then -x else x;
    Product(a, a)
  }

  /** BiomeDistance: squared Euclidean distance over the six features. */
  function BiomeDistance(b: Biome, f: Features): real {
    var c := b.features;
    Square(c.elevation - f.elevation) + Square(c.erosion - f.erosion)
    + Square(c.continentalness - f.continentalness) + Square(c.weirdness - f.weirdness)
    + Square(c.temperature - f.temperature) + Square(c.humidity - f.humidity)
  }

  /** The distance is never negative, and it is zero exactly at the biome's own features. */
  lemma BiomeDistanceZero(b: Biome, f: Features)
    ensures BiomeDistance(b, f) >= 0.0
    ensures BiomeDistance(b, f) == 0.0 <==> b.features == f
  {
  }

  /** The distance of the biome at position i of the iteration order. */
  function OrderDistance(t: BiomeTable, order: seq<string>, f: Features, i: int): real
    requires IsOrder(t, order) && 0 <= i < |order|
  {
    BiomeDistance(t[order[i]], f)
  }

  /** The loop of chooseBiome from position k on, holding the best position so
      far; a biome replaces the best only when strictly closer. */
  function ScanBest(t: BiomeTable, order: seq<string>, f: Features, k: nat, best: nat): (r: nat)
    requires IsOrder(t, order)
    requires best < |order| && best <= k <= |order|
    requires forall i :: 0 <= i < k ==> OrderDistance(t, order, f, best) <= OrderDistance(t, order, f, i)
    requires forall i :: 0 <= i < best ==> OrderDistance(t, order, f, i) > OrderDistance(t, order, f, best)
    ensures r < |order|
    ensures forall i :: 0 <= i < |order| ==> OrderDistance(t, order, f, r) <= OrderDistance(t, order, f, i)
    ensures forall i :: 0 <= i < r ==> OrderDistance(t, order, f, i) > OrderDistance(t, order, f, r)
    decreases |order| - k
  {
    if k == |order| then best
    else if OrderDistance(t, order, f, k) < OrderDistance(t, order, f, best) then ScanBest(t, order, f, k + 1, k)
    else ScanBest(t, order, f, k + 1, best)
  }

  datatype BiomeError = NoBiomesRegistered

  /** chooseBiome: the position, in iteration order, of a nearest biome, the
      earliest among equally near ones; an empty table throws. */
  function ChooseBiome(t: BiomeTable, order: seq<string>, f: Features): (r: Result<nat, BiomeError>)
    requires IsOrder(t, order)
    ensures r.Failure? <==> |t| == 0
    ensures r.Success? ==> r.value < |order| && order[r.value] in t
    ensures r.Success? ==> forall name :: name in t ==> BiomeDistance(t[order[r.value]], f) <= BiomeDistance(t[name], f)
    ensures r.Success? ==> forall i :: 0 <= i < r.value ==> OrderDistance(t, order, f, i) > OrderDistance(t, order, f, r.value)
  {
    if |t| == 0 then Failure(NoBiomesRegistered)
    else
      assert |order| > 0 by {
        var name :| name in t;
        assert name in order;
      }
      var r := ScanBest(t, order, f, 0, 0);
      assert forall name :: name in t ==> BiomeDistance(t[order[r]], f) <= BiomeDistance(t[name], f) by {
        forall name | name in t ensures BiomeDistance(t[order[r]], f) <= BiomeDistance(t[name], f) {
          var i :| 0 <= i < |order| && order[i] == name;
          assert OrderDistance(t, order, f, r) <= OrderDistance(t, order, f, i);
        }
      }
      Success(r)
  }

  /** The biome chooseBiome returns. */
  function ChosenBiome(t: BiomeTable, order: seq<string>, f: Features): Biome
    requires IsOrder(t, order) && |t| > 0
  {
    t[order[ChooseBiome(t, order, f).value]]
  }

  /** A biome at exactly the query's features is chosen, unless one earlier
      in iteration order also sits at distance zero. */
  lemma ChooseExactMatch(t: BiomeTable, order: seq<string>, f: Features, k: nat)
    requires IsOrder(t, order)
    requires k < |order| && t[order[k]].features == f
    requires forall i :: 0 <= i < k ==> t[order[i]].features != f
    ensures ChooseBiome(t, order, f) == Success(k)
  {
    var r := ChooseBiome(t, order, f).value;
    BiomeDistanceZero(t[order[k]], f);
    BiomeDistanceZero(t[order[r]], f);
    assert OrderDistance(t, order, f, r) <= OrderDistance(t, order, f, k);
  }

  /** A biome strictly nearer than every other is chosen whatever the
      iteration order; only ties depend on the hash. */
  lemma ChooseUniqueNearest(t: BiomeTable, order: seq<string>, f: Features, name: string)
    requires IsOrder(t, order) && name in t
    requires forall other :: other in t && other != name ==> BiomeDistance(t[name], f) < BiomeDistance(t[other], f)
    ensures ChooseBiome(t, order, f).Success? && order[ChooseBiome(t, order, f).value] == name
  {
    var r := ChooseBiome(t, order, f).value;
    assert BiomeDistance(t[order[r]], f) <= BiomeDistance(t[name], f);
  }

  /** The vertical band a voxel of a column falls in. */
  datatype Layer = AirLayer | WaterLayer | TopLayer | FillerLayer | StoneLayer | BottomLayer

  /** The branch chain of GenerateVoxelData for one voxel. Above the terrain
      but exactly at the water level, neither air nor water applies and the
      negative depth selects the top block. */
  function ColumnLayer(worldY: int, terrainHeight: int, waterLevel: int, topDepth: nat, fillerDepth: nat): Layer {
    if worldY > terrainHeight && worldY > waterLevel then AirLayer
    else if worldY > terrainHeight && worldY < waterLevel then WaterLayer
    else
      var depth := terrainHeight - worldY;
      if depth < topDepth then TopLayer
      else if depth <= topDepth + fillerDepth then FillerLayer
      else if depth < terrainHeight then StoneLayer
      else BottomLayer
  }

  /** Each band, stated by the position of the voxel relative to the surface
      and the water level (depth = terrainHeight - worldY). */
  lemma ColumnLayerBands(worldY: int, terrainHeight: int, waterLevel: int, topDepth: nat, fillerDepth: nat)
    ensures var l, depth := ColumnLayer(worldY, terrainHeight, waterLevel, topDepth, fillerDepth), terrainHeight - worldY;
      && (l == AirLayer <==> worldY > terrainHeight && worldY > waterLevel)
      && (l == WaterLayer <==> worldY > terrainHeight && worldY < waterLevel)
      && (l == TopLayer <==> (worldY > terrainHeight && worldY == waterLevel) || (0 <= depth < topDepth))
      && (l == FillerLayer <==> topDepth <= depth <= topDepth + fillerDepth)
      && (l == StoneLayer <==> topDepth + fillerDepth < depth < terrainHeight)
      && (l == BottomLayer <==> depth > topDepth + fillerDepth && depth >= terrainHeight)
  {
  }

  /** The block of a biome for a band. */
  function LayerBlock(b: Biome, l: Layer): nat {
    match l
    case AirLayer => b.airBlock
    case WaterLayer => b.waterBlock
    case TopLayer => b.topBlock
    case FillerLayer => b.fillerBlock
    case StoneLayer => b.stoneBlock
    case BottomLayer => b.bottomBlock
  }

  /** The block written for level worldY of a column with the given biome and surface. */
  function ColumnBlock(b: Biome, worldY: int, terrainHeight: int, waterLevel: int): nat {
    LayerBlock(b, ColumnLayer(worldY, terrainHeight, waterLevel, b.topDepth, b.fillerDepth))
  }

  /** Voxel (x, y, z) of chunk `c` (CHUNK_SIZE on every side): its column's
      features, biome and height are those of world column (x + 31 c.x, z + 31 c.z). */
  function GeneratedVoxel(c: IVec3, t: BiomeTable, order: seq<string>, features: (int, int) -> Features,
                          terrainHeight: Features -> int, waterLevel: int, x: int, y: int, z: int): nat
    requires IsOrder(t, order) && |t| > 0
  {
    var f := features(x + c.x * ChunkSize, z + c.z * ChunkSize);
    var b := ChosenBiome(t, order, f);
    ColumnBlock(b, y + c.y * ChunkSize, terrainHeight(f), waterLevel)
  }

  /** The chunk volume the generator fills. */
  const ChunkDims: Dims := Dims(ChunkSize, ChunkSize, ChunkSize)

  /** DefaultVoxelSystem::GenerateVoxelData over a CHUNK_SIZE^3 buffer, laid
      out by getIndex without any Y flip. The first chooseBiome throws when
      no biome is registered. */
  function GenerateChunk(c: IVec3, t: BiomeTable, order: seq<string>, features: (int, int) -> Features,
                         terrainHeight: Features -> int, waterLevel: int): (r: Result<seq<nat>, BiomeError>)
    requires IsOrder(t, order)
    ensures r.Failure? <==> |t| == 0
    ensures r.Success? ==> |r.value| == ChunkDims.Volume()
  {
    if |t| == 0 then Failure(NoBiomesRegistered)
    else
      Success(seq(ChunkDims.Volume(), i requires 0 <= i < ChunkDims.Volume() =>
        GeneratedVoxel(c, t, order, features, terrainHeight, waterLevel,
                       i % ChunkSize, i / ChunkSize / ChunkSize, i / ChunkSize % ChunkSize)))
  }

  /** Every voxel (x, y, z) of the chunk is written at getIndex(x, y, z) with
      the block its column and height call for. */
  lemma GenerateChunkLayout(c: IVec3, t: BiomeTable, order: seq<string>, features: (int, int) -> Features,
                            terrainHeight: Features -> int, waterLevel: int, x: int, y: int, z: int)
    requires IsOrder(t, order) && |t| > 0 && ChunkDims.Contains(x, y, z)
    ensures var data := GenerateChunk(c, t, order, features, terrainHeight, waterLevel).value;
      && 0 <= Index3D(x, y, z, ChunkSize, ChunkSize) < |data|
      && data[Index3D(x, y, z, ChunkSize, ChunkSize)] == GeneratedVoxel(c, t, order, features, terrainHeight, waterLevel, x, y, z)
  {
    Index3DInRange(x, y, z, ChunkDims);
    Index3DDecode(x, y, z, ChunkSize, ChunkSize);
  }
}
