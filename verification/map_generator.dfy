/**
 * The map generator of server/map_generator.go: random generation, saving
 * and loading through the binary codec, and the in-memory cache with the
 * remembered file name.
 *
 * The file system is a map from file names to contents; what can go wrong
 * while saving is an explicit `IoFault` argument. The random source is the
 * `draw` argument: the raw value behind the k-th `rand.Intn` call.
 */
module MapGen {
  import opened Wrappers
  import opened Words
  import opened Float32Bits
  import opened LittleEndian
  import opened MapCodec
  import opened Events

  /** The mutable part of Go's MapGenerator (the event manager is passed where it is used). */
  datatype Generator = Generator(currentMap: Option<MapData>, lastFilename: string)

  type FileSystem = map<string, seq<Byte>>

  /** What can go wrong while saving. */
  datatype IoFault =
    | NoFault
    | MkdirFault              // os.MkdirAll failed: nothing was touched
    | CreateFault             // os.Create failed: nothing was touched
    | WriteFault(written: nat) // a write failed after the file was created and `written` bytes reached it

  datatype SaveError = MkdirFailed | CreateFailed | WriteFailed

  datatype MapError =
    | SaveFailed(saveError: SaveError)
    | OpenFailed
    | LoadFailed(decodeError: DecodeError)
    | NoMapInMemory

  function NewMapGenerator(): (g: Generator)
    ensures g.currentMap.None? && g.lastFilename == ""
  {
    Generator(None, "")
  }

  // ---------------------------------------------------------------- Generate

  /** `rand.Intn(n)` as the k-th call of the generator: a value in [0, n). */
  function Intn(draw: nat -> nat, k: nat, n: nat): (v: nat)
    requires n > 0
    ensures v < n
  {
    draw(k) % n
  }

  /**
   * Generate fills `height` rows of `width` cells, each `float32(rand.Intn(maxVal + 1))`,
   * drawn in row-major order.
   */
  function Generate(width: int, height: int, maxVal: int, draw: nat -> nat): (m: MapData)
    requires LengthsAccepted(width, height)
    requires CellCount(width, height) > 0 ==> 0 <= maxVal < MaxExact
    ensures m.width == width && m.height == height && m.maxVal == maxVal
    ensures |m.data| == height
    ensures forall y | 0 <= y < height :: |m.data[y]| == width
    ensures forall y, x | 0 <= y < height && 0 <= x < width ::
      ToInt(m.data[y][x]).Some? && ToInt(m.data[y][x]).value <= maxVal
    ensures InInt32(width) && InInt32(height) && InInt32(maxVal) ==> WellFormed(m)
  {
    var rows :=
      if CellCount(width, height) == 0 then seq(height, y => [])
      else seq(height, y requires 0 <= y < height => GenerateRow(RowStart(y, width), width, maxVal, draw));
    MapData(width, height, maxVal, rows)
  }

  /** The index of the first draw of row `y`. */
  function RowStart(y: nat, width: nat): nat {
    y * width
  }

  /** One row: `width` cells drawn from consecutive calls starting at call `first`. */
  function GenerateRow(first: nat, width: nat, maxVal: int, draw: nat -> nat): (row: seq<Float32>)
    requires 0 <= maxVal < MaxExact
    ensures |row| == width
    ensures forall x | 0 <= x < width :: ToInt(row[x]).Some? && ToInt(row[x]).value <= maxVal
  {
    var row := seq(width, x requires 0 <= x < width => GeneratedCell(draw, first + x, maxVal));
    assert forall x | 0 <= x < width :: row[x] == GeneratedCell(draw, first + x, maxVal);
    row
  }

  /** The k-th cell drawn: `float32(rand.Intn(maxVal + 1))`, an integer in [0, maxVal]. */
  function GeneratedCell(draw: nat -> nat, k: nat, maxVal: int): (c: Float32)
    requires 0 <= maxVal < MaxExact
    ensures ToInt(c).Some? && ToInt(c).value <= maxVal
  {
    OfInt(Intn(draw, k, maxVal + 1))
  }

  // ---------------------------------------------------------------- files

  /** What a save leaves behind: the new file system and the error it reports, if any. */
  datatype SaveOutcome = SaveOutcome(fs: FileSystem, err: Option<SaveError>)

  /**
   * SaveToFile: on success the file holds exactly the encoding of `m`; a
   * failed write leaves a proper prefix of it; other files never change.
   */
  function SaveToFile(fs: FileSystem, m: MapData, filename: string, fault: IoFault): (r: SaveOutcome)
    requires Writable(m)
    ensures r.err.None? <==> fault == NoFault
    ensures forall f | f != filename :: (f in r.fs <==> f in fs) && (f in fs ==> r.fs[f] == fs[f])
    ensures fault == NoFault ==> filename in r.fs && r.fs[filename] == Encode(m)
    ensures fault.MkdirFault? || fault.CreateFault? ==> r.fs == fs
    ensures fault == MkdirFault ==> r.err == Some(MkdirFailed)
    ensures fault == CreateFault ==> r.err == Some(CreateFailed)
    ensures fault.WriteFault? ==>
      && r.err == Some(WriteFailed)
      && filename in r.fs
      && |r.fs[filename]| < |Encode(m)|
      && r.fs[filename] == Encode(m)[..|r.fs[filename]|]
  {
    match fault
    case MkdirFault => SaveOutcome(fs, Some(MkdirFailed))
    case CreateFault => SaveOutcome(fs, Some(CreateFailed))
    case WriteFault(written) =>
      var bytes := Encode(m);
      var kept := if written < |bytes| then written else |bytes| - 1;
      SaveOutcome(fs[filename := bytes[..kept]], Some(WriteFailed))
    case NoFault => SaveOutcome(fs[filename := Encode(m)], None)
  }

  /**
   * LoadMapFromFile: a missing file cannot be opened; otherwise the bytes
   * are decoded, and a loaded map is one whose encoding starts the file.
   */
  function LoadMapFromFile(fs: FileSystem, filename: string): (r: Result<MapData, MapError>)
    ensures filename !in fs ==> r == Failure(OpenFailed)
    ensures r.Success? ==>
      && filename in fs
      && WellFormed(r.value)
      && Writable(r.value)
      && |Encode(r.value)| <= |fs[filename]|
      && fs[filename][..|Encode(r.value)|] == Encode(r.value)
    ensures filename in fs && r.Failure? ==> r.error.LoadFailed?
    ensures filename in fs ==> (r.Success? <==> Decode(fs[filename]).Success?)
    ensures filename in fs && r.Success? ==> r.value == Decode(fs[filename]).value
    ensures filename in fs && r.Failure? ==> r.error == LoadFailed(Decode(fs[filename]).error)
  {
    if filename !in fs then Failure(OpenFailed)
    else
      var bs := fs[filename];
      match Decode(bs)
      case Failure(e) => Failure(LoadFailed(e))
      case Success(m) =>
        WellFormedIsWritable(m);
        EncodeDecode(bs);
        Success(m)
  }

  // ---------------------------------------------------------------- cache

  /** The event GenerateAndSave publishes once the map is saved and cached. */
  function MapGeneratedEvent(filename: string, width: int, height: int, maxVal: int): Event {
    Event(MapGenerated, MapGeneratedData(filename, width, height, maxVal))
  }

  /** One GenerateAndSave call: new generator state, file system, error, and published events. */
  datatype GenerateStep = GenerateStep(gen: Generator, fs: FileSystem, err: Option<MapError>, published: seq<Event>)

  /**
   * GenerateAndSave: generate, save, and only when the save succeeded
   * replace the cache, remember the file name and publish one
   * `map_generated` event carrying file name and dimensions.
   */
  function GenerateAndSave(g: Generator, fs: FileSystem, width: int, height: int, maxVal: int,
                           filename: string, draw: nat -> nat, fault: IoFault): (r: GenerateStep)
    requires LengthsAccepted(width, height)
    requires CellCount(width, height) > 0 ==> 0 <= maxVal < MaxExact
    ensures r.err.Some? <==> fault != NoFault
    ensures r.err.Some? ==> r.gen == g && r.published == [] && r.err.value.SaveFailed?
    ensures var saved := SaveToFile(fs, Generate(width, height, maxVal, draw), filename, fault);
      && r.fs == saved.fs
      && (r.err.Some? ==> saved.err.Some? && r.err == Some(SaveFailed(saved.err.value)))
    ensures r.err.None? ==>
      && r.gen.currentMap == Some(Generate(width, height, maxVal, draw))
      && r.gen.lastFilename == filename
      && r.published == [Event(MapGenerated, MapGeneratedData(filename, width, height, maxVal))]
      && filename in r.fs && r.fs[filename] == Encode(r.gen.currentMap.value)
  {
    var m := Generate(width, height, maxVal, draw);
    var saved := SaveToFile(fs, m, filename, fault);
    match saved.err
    case Some(e) => GenerateStep(g, saved.fs, Some(SaveFailed(e)), [])
    case None =>
      GenerateStep(Generator(Some(m), filename), saved.fs, None,
                   [MapGeneratedEvent(filename, width, height, maxVal)])
  }

  /** The result of GetMapData together with the generator state it leaves. */
  datatype Fetch = Fetch(gen: Generator, result: Result<MapData, MapError>)

  /**
   * GetMapData: the cached map if there is one; with no cache and no
   * remembered file, an error; otherwise the map loaded from the remembered
   * file, which is cached only when the load succeeded.
   */
  function GetMapData(g: Generator, fs: FileSystem): (r: Fetch)
    ensures g.currentMap.Some? ==> r == Fetch(g, Success(g.currentMap.value))
    ensures g.currentMap.None? && g.lastFilename == "" ==> r == Fetch(g, Failure(NoMapInMemory))
    ensures g.currentMap.None? && g.lastFilename != "" ==>
      && r.result == LoadMapFromFile(fs, g.lastFilename)
      && r.gen.lastFilename == g.lastFilename
      && (r.result.Success? ==> r.gen.currentMap == Some(r.result.value))
      && (r.result.Failure? ==> r.gen == g)
  {
    if g.currentMap.Some? then Fetch(g, Success(g.currentMap.value))
    else if g.lastFilename == "" then Fetch(g, Failure(NoMapInMemory))
    else
      match LoadMapFromFile(fs, g.lastFilename)
      case Failure(e) => Fetch(g, Failure(e))
      case Success(m) => Fetch(g.(currentMap := Some(m)), Success(m))
  }

  // ---------------------------------------------------------------- properties

  /**
   * A successful GenerateAndSave leaves a file that loads back as the very
   * map that was cached, so GetMapData returns it even with the cache gone.
   */
  lemma SavedMapReloads(g: Generator, fs: FileSystem, width: int, height: int, maxVal: int,
                        filename: string, draw: nat -> nat)
    requires LengthsAccepted(width, height)
    requires CellCount(width, height) > 0 ==> 0 <= maxVal < MaxExact
    requires InInt32(width) && InInt32(height) && InInt32(maxVal)
    requires filename != ""
    ensures var r := GenerateAndSave(g, fs, width, height, maxVal, filename, draw, NoFault);
      && LoadMapFromFile(r.fs, filename) == Success(Generate(width, height, maxVal, draw))
      && GetMapData(Generator(None, filename), r.fs).result == Success(Generate(width, height, maxVal, draw))
  {
    DecodeEncode(Generate(width, height, maxVal, draw));
  }

  /** A save interrupted by a write error leaves a file that does not load. */
  lemma InterruptedSaveDoesNotLoad(g: Generator, fs: FileSystem, width: int, height: int, maxVal: int,
                                   filename: string, draw: nat -> nat, written: nat)
    requires LengthsAccepted(width, height)
    requires CellCount(width, height) > 0 ==> 0 <= maxVal < MaxExact
    requires InInt32(width) && InInt32(height) && InInt32(maxVal)
    ensures var r := GenerateAndSave(g, fs, width, height, maxVal, filename, draw, WriteFault(written));
      && r.gen == g
      && LoadMapFromFile(r.fs, filename) == Failure(LoadFailed(Truncated))
  {
    var m := Generate(width, height, maxVal, draw);
    var r := SaveToFile(fs, m, filename, WriteFault(written));
    PartialWriteRejected(m, |r.fs[filename]|);
  }

  /**
   * In every state the generator reaches from NewMapGenerator, a missing
   * cache implies no remembered file name: the two are set together and
   * the cache is never cleared.
   */
  predicate CacheConsistent(g: Generator) {
    g.currentMap.None? ==> g.lastFilename == ""
  }

  lemma GenerateAndSavePreservesConsistency(g: Generator, fs: FileSystem, width: int, height: int,
                                            maxVal: int, filename: string, draw: nat -> nat, fault: IoFault)
    requires CacheConsistent(g)
    requires LengthsAccepted(width, height)
    requires CellCount(width, height) > 0 ==> 0 <= maxVal < MaxExact
    ensures CacheConsistent(GenerateAndSave(g, fs, width, height, maxVal, filename, draw, fault).gen)
  {
  }

  /**
   * Consequently, within one process GetMapData never reads the file: it
   * returns the cache, or fails with "no map found in memory".
   */
  lemma GetMapDataNeverLoads(g: Generator, fs: FileSystem)
    requires CacheConsistent(g)
    ensures GetMapData(g, fs).gen == g
    ensures CacheConsistent(GetMapData(g, fs).gen)
    ensures GetMapData(g, fs).result.Success? <==> g.currentMap.Some?
    ensures GetMapData(g, fs).result.Failure? ==> GetMapData(g, fs).result.error == NoMapInMemory
  {
  }
}
