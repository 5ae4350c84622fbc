/** Opening a GRASS vector map whose features live in an OGR layer: the level-1
    open of an existing layer, the level-2 open that loads the feature index, and
    the creation of a new layer. */
module OpenOgr {
  import opened Portable
  import opened Ogr
  import opened Fidx

  /** The value of the map header's `with_z` for a 2D map. */
  const WithoutZ: int := 0

  /** Warnings the routines print before going on or returning. */
  datatype Warning =
    | FidxMissing
    | FidxNewerFormat
    | DriverNotFound
    | DataSourceNotCreated
    | LayerOverwritten
    | LayerNotDeleted
    | LayerNotCreated

  /** Conditions on which the routines end the process. */
  datatype FatalError =
    | DsnUndefined
    | LayerUndefined
    | DataSourceNotOpened
    | LayerNotFound(name: string)
    | FidxVersionUnsupported(major: int, minor: int)
    | SeekFailed
    | OutOfMemory
    | LayerExists(name: string)

  /** `Done` is a return of 0, `Failed` a return of -1, `Fatal` a call of the
      fatal-error handler, which does not return. */
  datatype Outcome =
    | Done(warnings: seq<Warning>)
    | Failed(warnings: seq<Warning>)
    | Fatal(error: FatalError)

  function NewerWarning(warned: bool): seq<Warning> {
    if warned then [FidxNewerFormat] else []
  }

  /** How the level-2 open ends for a present fidx file decoded as `d`. */
  function Report(d: Decoding): Outcome {
    match d
    case ShortHeader => Failed([])
    case Rejected(major, minor) => Fatal(FidxVersionUnsupported(major, minor))
    case Parsed(warned, body) =>
      match body
      case Loaded(_) => Done(NewerWarning(warned))
      case Short(_) => Failed(NewerWarning(warned))
      case BadSeek(_) => Fatal(SeekFailed)
      case BadAlloc(_) => Fatal(OutOfMemory)
  }

  /** A present fidx file ends the level-2 open with 0 exactly when it decodes to a
      table, and never with 0 after a short read. */
  lemma ReportDone(d: Decoding)
    ensures Report(d).Done? <==> d.Parsed? && d.body.Loaded?
    ensures d.ShortHeader? || (d.Parsed? && d.body.Short?) ==> Report(d).Failed?
  {
  }

  /** The layer scan of the level-1 open: the index of the first layer of `source`
      whose name equals `name` exactly, or None when no name does. */
  method FindLayer(source: DataSource, name: string) returns (found: Option<nat>)
    ensures found == FirstNamed(source.layers, name)
  {
    var i := 0;
    found := None;
    while i < |source.layers|
      invariant 0 <= i <= |source.layers|
      invariant found.None?
      invariant forall j :: 0 <= j < i ==> source.layers[j].name != name
    {
      if source.layers[i].name == name {
        found := Some(i);
        break;
      }
      i := i + 1;
    }
    assert found.Some? ==> found.value < |source.layers| && source.layers[found.value].name == name;
  }

  /** The OGR part of a vector map (Map_info and its fInfo.ogr). */
  class MapInfo {
    // Set by the caller before an open.
    var dsn: Option<string>
    var layerName: Option<string>
    var driverName: string

    // Provider handles.
    var driver: Driver?
    var ds: DataSource?
    var layer: Layer?

    // Per-session caches of the level-1 open.
    var lines: array?<int>
    var linesTypes: array?<int>
    var linesAlloc: int
    var linesNum: int
    var linesNext: int
    var withZ: int
    var featureCache: object?
    var featureCacheId: int

    // Feature index loaded by the level-2 open.
    var offset: array?<int>
    var offsetNum: int
    var offsetAlloc: int
    var nextLine: int

    constructor (dsn: Option<string>, layerName: Option<string>, driverName: string)
      ensures this.dsn == dsn && this.layerName == layerName && this.driverName == driverName
      ensures driver == null && ds == null && layer == null && offset == null
    {
      this.dsn := dsn;
      this.layerName := layerName;
      this.driverName := driverName;
      driver, ds, layer := null, null, null;
      lines, linesTypes := null, null;
      linesAlloc, linesNum, linesNext := 0, 0, 0;
      withZ := WithoutZ;
      featureCache, featureCacheId := null, -1;
      offset, offsetNum, offsetAlloc, nextLine := null, 0, 0, 0;
    }

    ghost function Settings(): (Option<string>, Option<string>, string)
      reads this
    {
      (dsn, layerName, driverName)
    }

    ghost function Handles(): (Driver?, DataSource?, Layer?)
      reads this
    {
      (driver, ds, layer)
    }

    ghost function Cache(): (array?<int>, array?<int>, int, int, int, int, object?, int)
      reads this
    {
      (lines, linesTypes, linesAlloc, linesNum, linesNext, withZ, featureCache, featureCacheId)
    }

    ghost function Index(): (array?<int>, int, int, int)
      reads this
    {
      (offset, offsetNum, offsetAlloc, nextLine)
    }

    /** Open an existing layer without its feature index. `source` is what
        OGROpen gives for the data source name (null when it cannot be opened).
        `update` is ignored, as in `V1_open_old_ogr`. */
    method OpenOldLevel1(update: bool, source: DataSource?) returns (out: Outcome)
      requires source != null ==> source.Valid()
      modifies this, source
      ensures Settings() == old(Settings()) && Index() == old(Index())
      ensures source != null ==> source.layers == old(source.layers)
      ensures dsn.None? ==> out == Fatal(DsnUndefined) && unchanged(this) && (source != null ==> unchanged(source))
      ensures dsn.Some? && layerName.None? ==>
                out == Fatal(LayerUndefined) && unchanged(this) && (source != null ==> unchanged(source))
      ensures dsn.Some? && layerName.Some? && source == null ==>
                out == Fatal(DataSourceNotOpened) && unchanged(this)
      ensures dsn.Some? && layerName.Some? && source != null ==>
                ds == source && driver == old(driver) &&
                match FirstNamed(source.layers, layerName.value)
                case None =>
                  && out == Fatal(LayerNotFound(layerName.value))
                  && !source.open && layer == old(layer) && Cache() == old(Cache())
                case Some(i) =>
                  && out == Done([])
                  && layer == source.layers[i] && source.open == old(source.open)
                  && Cache() == (null, null, 0, 0, 0, WithoutZ, null, -1)
    {
      if dsn.None? {
        return Fatal(DsnUndefined);
      }
      if layerName.None? {
        return Fatal(LayerUndefined);
      }
      if source == null {
        return Fatal(DataSourceNotOpened);
      }
      ds := source;
      var name := layerName.value;
      var found := FindLayer(source, name);
      if found.None? {
        source.Destroy();
        return Fatal(LayerNotFound(name));
      }
      layer := source.layers[found.value];
      ResetCaches();
      return Done([]);
    }

    /** The per-session caches a level-1 open starts from. */
    method ResetCaches()
      modifies this
      ensures Cache() == (null, null, 0, 0, 0, WithoutZ, null, -1)
      ensures Settings() == old(Settings()) && Handles() == old(Handles()) && Index() == old(Index())
    {
      lines, linesTypes := null, null;
      linesAlloc, linesNum, linesNext := 0, 0, 0;
      withZ := WithoutZ;
      featureCache, featureCacheId := null, -1;
    }

    /** Open an existing layer with its feature index. `fidx` is the content of
        the map's fidx file, or None when the file cannot be opened. */
    method OpenOldLevel2(fidx: Option<seq<byte>>) returns (out: Outcome)
      modifies this
      ensures Settings() == old(Settings()) && Handles() == old(Handles())
      ensures Cache() == old(Cache())
      ensures offset != old(offset) ==> fresh(offset)
      ensures fidx.None? ==> out == Failed([FidxMissing]) && unchanged(this)
      ensures fidx.Some? ==> out == Report(Decode(fidx.value))
      ensures fidx.Some? ==>
                match Decode(fidx.value)
                case Parsed(_, body) => IndexAfter(body, old(Index()))
                case _ => Index() == old(Index())
      ensures !out.Done? ==> nextLine == old(nextLine)
    {
      if fidx.None? {
        return Failed([FidxMissing]);
      }
      ghost var data := fidx.value;
      var fp := new GvFile(fidx.value);

      // Header
      var ok, buf := fp.ReadBytes(5);
      if !ok {
        return Failed([]);
      }
      var versionMajor, versionMinor := SignedChar(buf[0]), SignedChar(buf[1]);
      var backMajor, backMinor := SignedChar(buf[2]), SignedChar(buf[3]);
      var byteOrder := SignedChar(buf[4]);
      var warned := false;
      if NewerThanReader(versionMajor, versionMinor) {
        if NewerThanReader(backMajor, backMinor) {
          return Fatal(FidxVersionUnsupported(versionMajor, versionMinor));
        }
        warned := true;
      }
      var order := OrderOfTag(byteOrder);
      assert Decode(data) == Parsed(warned, DecodeBody(data, order));
      out := ReadBody(fp, order, warned);
    }

    /** What the level-2 open leaves in the index fields after reading a body `b`,
        from the fields `before`: the whole table and `nextLine` 1 after a complete
        read; a new buffer of the announced size after a short read of the offsets;
        the count alone when the buffer cannot be allocated; nothing otherwise. */
    ghost predicate IndexAfter(b: Body, before: (array?<int>, int, int, int))
      reads this, offset
    {
      match b
      case Loaded(offsets) =>
        && offset != null && offset != before.0 && offset[..] == offsets
        && offsetNum == |offsets| && offsetAlloc == offsetNum && nextLine == 1
      case Short(Offsets(n)) =>
        && offset != null && offset != before.0 && offset.Length == n
        && offsetNum == n && offsetAlloc == n && nextLine == before.3
      case BadAlloc(n) =>
        Index() == (before.0, n, before.2, before.3)
      case _ =>
        Index() == before
    }

    /** The level-2 open after an accepted header: the header length, a seek to
        it, the record count, the offsets. */
    method ReadBody(fp: GvFile, order: ByteOrder, warned: bool) returns (out: Outcome)
      requires |fp.data| >= 5 && fp.pos == 5
      modifies this, fp
      ensures Settings() == old(Settings()) && Handles() == old(Handles())
      ensures Cache() == old(Cache())
      ensures offset != old(offset) ==> fresh(offset)
      ensures out == Report(Parsed(warned, DecodeBody(fp.data, order)))
      ensures IndexAfter(DecodeBody(fp.data, order), old(Index()))
    {
      var warnings := NewerWarning(warned);
      ghost var data := fp.data;
      var ok, length := fp.ReadInt32(order);
      if !ok {
        assert DecodeBody(data, order) == Short(HeaderLength);
        return Failed(warnings);
      }
      assert length == DecodeInt32(data[5..9], order);
      ok := fp.Seek(length);
      if !ok {
        assert DecodeBody(data, order) == BadSeek(length);
        return Fatal(SeekFailed);
      }
      var count;
      ok, count := fp.ReadInt32(order);
      if !ok {
        assert DecodeBody(data, order) == Short(Count);
        return Failed(warnings);
      }
      assert count == DecodeInt32(data[length..length + 4], order);
      offsetNum := count;
      if count < 0 {
        assert DecodeBody(data, order) == BadAlloc(count);
        return Fatal(OutOfMemory);
      }
      ok := ReadOffsets(fp, count, order);
      if !ok {
        assert DecodeBody(data, order) == Short(Offsets(count));
        return Failed(warnings);
      }
      assert DecodeBody(data, order) == Loaded(offset[..]);
      nextLine := 1;
      return Done(warnings);
    }

    /** Allocation of the offset buffer for `count` records and the read of the
        offsets into it. */
    method ReadOffsets(fp: GvFile, count: int, order: ByteOrder) returns (ok: bool)
      requires count >= 0
      modifies this, fp
      ensures Settings() == old(Settings()) && Handles() == old(Handles())
      ensures Cache() == old(Cache())
      ensures offsetNum == old(offsetNum) && nextLine == old(nextLine)
      ensures offset != null && fresh(offset) && offset.Length == count && offsetAlloc == count
      ensures ok == (old(fp.pos) + 4 * count <= |fp.data|)
      ensures ok ==> offset[..] == DecodeInts(fp.data[old(fp.pos)..old(fp.pos) + 4 * count], order)
    {
      offset := new int[count];
      offsetAlloc := count;
      ok := fp.ReadInt32s(offset, count, order);
    }

    /** Create the map's layer in a new data source, as `V1_open_new_ogr` does.
        `found` is what the driver lookup gives for `driverName` (null for an
        unknown driver), `created` what data-source creation gives for `dsn` (null
        on failure), `overwrite` the process-wide overwrite flag, `deleteAccepted`
        and `createAccepted` whether OGR carries out a layer deletion and a layer
        creation. The map's layer name goes to OGR unchecked, null (None)
        included. `name` and `withZ` are ignored, as in `V1_open_new_ogr`. */
    method OpenNew(name: string, withZ: int, found: Driver?, created: DataSource?,
                   overwrite: bool, deleteAccepted: bool, createAccepted: bool)
      returns (out: Outcome)
      requires created != null ==> created.Valid()
      modifies this, created
      ensures Settings() == old(Settings()) && Cache() == old(Cache()) && Index() == old(Index())
      ensures found == null ==>
                out == Failed([DriverNotFound]) && unchanged(this) && (created != null ==> unchanged(created))
      ensures found != null && created == null ==>
                out == Failed([DataSourceNotCreated])
                && Handles() == (found, old(ds), old(layer))
      ensures found != null && created != null ==>
                && driver == found && ds == created
                && created.Valid() && created.open == old(created.open)
                && OpenNewEffect(old(created.layers), layerName, overwrite,
                                 deleteAccepted, createAccepted, old(layer),
                                 out, layer, created.layers)
      ensures out.Done? && created != null ==> layer != null && fresh(layer) && layer in created.layers
      ensures found != null && created != null && overwrite && deleteAccepted
              && old(created.LayerByName(layerName)) != null ==>
                old(created.LayerByName(layerName)) !in created.layers
    {
      if found == null {
        return Failed([DriverNotFound]);
      }
      driver := found;
      if created == null {
        return Failed([DataSourceNotCreated]);
      }
      ds := created;
      ghost var before := created.layers;
      var warnings: seq<Warning> := [];
      var existing := created.LayerByName(layerName);
      if existing != null {
        var target := layerName.value;
        ghost var k := FirstNamed(before, target).value;
        var i := 0;
        while i < |created.layers|
          invariant 0 <= i <= k
          invariant created.layers == before && warnings == [] && created.Valid()
          invariant created.open == old(created.open)
          invariant forall j :: 0 <= j < i ==> created.layers[j] != existing
        {
          if created.layers[i] == existing {
            if overwrite {
              warnings := [LayerOverwritten];
              var ok := created.DeleteLayer(i, deleteAccepted);
              if !ok {
                return Failed(warnings + [LayerNotDeleted]);
              }
            } else {
              return Fatal(LayerExists(target));
            }
            break;
          }
          i := i + 1;
        }
        assert created.layers == RemoveAt(before, k) && warnings == [LayerOverwritten];
        assert existing !in created.layers;
      }
      var l := created.CreateLayer(layerName, Point, createAccepted);
      if l == null {
        return Failed(warnings + [LayerNotCreated]);
      }
      layer := l;
      return Done(warnings);
    }
  }

  /** The outcome, layer handle and layer list `OpenNew` leaves behind, given the
      layer list `before` of the new data source, the map's layer name `target`
      and the handle `oldLayer` the map held: a same-named layer is fatal without
      overwrite; with overwrite that one layer is deleted first, and a failed
      deletion stops before any creation; then a point layer named `target` is
      appended and becomes the map's layer. A null name finds no layer and is
      refused by the creation. */
  ghost predicate OpenNewEffect(before: seq<Layer>, target: Option<string>, overwrite: bool,
                                deleteAccepted: bool, createAccepted: bool, oldLayer: Layer?,
                                out: Outcome, layer: Layer?, after: seq<Layer>)
  {
    if target.Some? && FirstNamed(before, target.value).Some? then
      var k := FirstNamed(before, target.value).value;
      if !overwrite then
        out == Fatal(LayerExists(target.value)) && after == before && layer == oldLayer
      else if !deleteAccepted then
        out == Failed([LayerOverwritten, LayerNotDeleted]) && after == before && layer == oldLayer
      else
        CreationEffect(RemoveAt(before, k), [LayerOverwritten], target, createAccepted,
                       oldLayer, out, layer, after)
    else
      CreationEffect(before, [], target, createAccepted, oldLayer, out, layer, after)
  }

  /** The layer creation at the end of `OpenNew`, from the layers `kept` and the
      warnings printed so far: a point layer named `target` appended when OGR
      accepts a named creation, -1 with a warning otherwise. */
  ghost predicate CreationEffect(kept: seq<Layer>, warnings: seq<Warning>, target: Option<string>,
                                 createAccepted: bool, oldLayer: Layer?,
                                 out: Outcome, layer: Layer?, after: seq<Layer>)
  {
    if createAccepted && target.Some? then
      && out == Done(warnings) && layer != null && layer.name == target.value
      && layer.geometry == Point && after == kept + [layer]
    else
      out == Failed(warnings + [LayerNotCreated]) && after == kept && layer == oldLayer
  }

  /** Overwrite gating on success: whatever path `OpenNew` took, the map's layer
      is a point layer named `target` in the data source, and a data source that
      held at most one layer of that name before holds exactly one after. */
  lemma OpenNewLeavesOneNamed(before: seq<Layer>, target: string, overwrite: bool,
                              deleteAccepted: bool, createAccepted: bool, oldLayer: Layer?,
                              out: Outcome, layer: Layer?, after: seq<Layer>)
    requires OpenNewEffect(before, Some(target), overwrite, deleteAccepted, createAccepted,
                           oldLayer, out, layer, after)
    requires out.Done? && CountNamed(before, target) <= 1
    ensures layer != null && layer.name == target && layer.geometry == Point && layer in after
    ensures CountNamed(after, target) == 1
  {
    OverwriteLeavesOneNamed(before, target, layer);
  }

  /** Layer names match exactly and the first match wins: of layers named "A",
      "AB" and "a", the name "A" selects the first and "B" none. */
  lemma ExactFirstMatch(a: Layer, ab: Layer, lower: Layer)
    requires a.name == "A" && ab.name == "AB" && lower.name == "a"
    ensures FirstNamed([a, ab, lower], "A") == Some(0)
    ensures FirstNamed([ab, lower, a], "A") == Some(2)
    ensures FirstNamed([ab, lower], "A") == None
  {
  }
}
