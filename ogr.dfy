/** The part of the OGR library the open routines use, reduced to handles and
    layer lists. A handle is an object: two handles are the same layer exactly
    when they are the same object, which is how `V1_open_new_ogr` compares them. */
module Ogr {

  datatype Option<T> = None | Some(value: T)

  /** OGR geometry types; a new layer is always created with `Point`. */
  datatype GeometryType = Unknown | Point | LineString | Polygon

  /** A layer handle (OGRLayerH) with the name its feature definition declares. */
  class Layer {
    const name: string
    const geometry: GeometryType

    constructor (name: string, geometry: GeometryType)
      ensures this.name == name && this.geometry == geometry
    {
      this.name := name;
      this.geometry := geometry;
    }
  }

  /** A format driver handle (OGRSFDriverH). */
  class Driver {
    const name: string

    constructor (name: string)
      ensures this.name == name
    {
      this.name := name;
    }
  }

  /** No layer handle occurs twice in a data source. */
  ghost predicate Distinct(layers: seq<Layer>) {
    forall i, j :: 0 <= i < j < |layers| ==> layers[i] != layers[j]
  }

  /** Index of the first layer whose name equals `name` exactly (strcmp == 0). */
  function FirstNamed(layers: seq<Layer>, name: string): (r: Option<nat>)
    ensures r.Some? ==> r.value < |layers| && layers[r.value].name == name
    ensures r.Some? ==> forall j :: 0 <= j < r.value ==> layers[j].name != name
    ensures r.None? ==> forall j :: 0 <= j < |layers| ==> layers[j].name != name
  {
    if layers == [] then None
    else if layers[0].name == name then Some(0)
    else
      match FirstNamed(layers[1..], name)
      case None => None
      case Some(i) => Some(i + 1)
  }

  /** Number of layers named `name`. */
  function CountNamed(layers: seq<Layer>, name: string): nat {
    if layers == [] then 0
    else (if layers[0].name == name then 1 else 0) + CountNamed(layers[1..], name)
  }

  /** `s` without its entry at index `i`. */
  function RemoveAt<T>(s: seq<T>, i: nat): (r: seq<T>)
    requires i < |s|
    ensures |r| == |s| - 1
    ensures forall j :: 0 <= j < i ==> r[j] == s[j]
    ensures forall j :: i <= j < |r| ==> r[j] == s[j + 1]
  {
    s[..i] + s[i + 1..]
  }

  lemma {:induction false} CountNamedAppend(a: seq<Layer>, b: seq<Layer>, name: string)
    ensures CountNamed(a + b, name) == CountNamed(a, name) + CountNamed(b, name)
  {
    if a != [] {
      assert (a + b)[1..] == a[1..] + b;
      CountNamedAppend(a[1..], b, name);
    } else {
      assert a + b == b;
    }
  }

  /** Removing the first layer with a name removes exactly one layer of that name. */
  lemma {:induction false} CountNamedRemoveFirst(layers: seq<Layer>, name: string)
    requires FirstNamed(layers, name).Some?
    ensures CountNamed(RemoveAt(layers, FirstNamed(layers, name).value), name)
            == CountNamed(layers, name) - 1
  {
    if layers[0].name != name {
      var rest := layers[1..];
      CountNamedRemoveFirst(rest, name);
      assert RemoveAt(layers, FirstNamed(layers, name).value)
          == [layers[0]] + RemoveAt(rest, FirstNamed(rest, name).value);
      CountNamedAppend([layers[0]], RemoveAt(rest, FirstNamed(rest, name).value), name);
    } else {
      assert RemoveAt(layers, 0) == layers[1..];
    }
  }

  /** No layer has a name exactly when the first-match search finds none. */
  lemma {:induction false} CountNamedZero(layers: seq<Layer>, name: string)
    ensures CountNamed(layers, name) == 0 <==> FirstNamed(layers, name).None?
  {
    if layers != [] {
      CountNamedZero(layers[1..], name);
    }
  }

  /** After replacing the first `name` layer (if any) by a new layer with that name,
      a data source that held at most one such layer holds exactly one. */
  lemma OverwriteLeavesOneNamed(layers: seq<Layer>, name: string, created: Layer)
    requires CountNamed(layers, name) <= 1
    requires created.name == name
    ensures var kept := match FirstNamed(layers, name)
                        case Some(k) => RemoveAt(layers, k)
                        case None => layers;
            CountNamed(kept + [created], name) == 1
  {
    var kept := match FirstNamed(layers, name)
                case Some(k) => RemoveAt(layers, k)
                case None => layers;
    CountNamedZero(layers, name);
    if FirstNamed(layers, name).Some? {
      CountNamedRemoveFirst(layers, name);
    }
    CountNamedAppend(kept, [created], name);
    assert [created][1..] == [];
  }

  /** Removing one entry keeps the others pairwise distinct. */
  lemma DistinctRemoveAt(layers: seq<Layer>, i: nat)
    requires Distinct(layers) && i < |layers|
    ensures Distinct(RemoveAt(layers, i))
  {
    var r := RemoveAt(layers, i);
    forall a, b | 0 <= a < b < |r| ensures r[a] != r[b] {
      var a' := if a < i then a else a + 1;
      var b' := if b < i then b else b + 1;
      assert r[a] == layers[a'] && r[b] == layers[b'] && a' < b';
    }
  }

  /** In a list without repeated handles, the handle removed at `i` occurs nowhere
      in what remains. */
  lemma RemovedIsGone(layers: seq<Layer>, i: nat)
    requires Distinct(layers) && i < |layers|
    ensures layers[i] !in RemoveAt(layers, i)
  {
    var r := RemoveAt(layers, i);
    forall j | 0 <= j < |r| ensures r[j] != layers[i] {
      if j < i {
        assert r[j] == layers[j];
      } else {
        assert r[j] == layers[j + 1];
      }
    }
  }

  /** A data source handle (OGRDataSourceH): its layers, in provider order. */
  class DataSource {
    var layers: seq<Layer>
    /** Cleared by OGR_DS_Destroy. */
    var open: bool

    /** OGR never lists one handle twice; a deleted handle is then gone for good. */
    ghost predicate Valid()
      reads this
    {
      Distinct(layers)
    }

    constructor (layers: seq<Layer>)
      requires Distinct(layers)
      ensures Valid() && this.layers == layers && open
    {
      this.layers := layers;
      this.open := true;
    }

    /** OGR_DS_GetLayerByName, as the first layer whose name equals `name`; a null
        name (None) finds no layer. */
    function LayerByName(name: Option<string>): (l: Layer?)
      reads this
      ensures name.None? ==> l == null
      ensures name.Some? ==> (l == null <==> FirstNamed(layers, name.value).None?)
      ensures l != null ==> name.Some? && l == layers[FirstNamed(layers, name.value).value]
    {
      if name.None? then null
      else
        match FirstNamed(layers, name.value)
        case Some(i) => layers[i]
        case None => null
    }

    /** OGR_DS_Destroy. */
    method Destroy()
      modifies this
      ensures !open && layers == old(layers)
    {
      open := false;
    }

    /** OGR_DS_DeleteLayer: removes layer `i` when the provider agrees
        (`accepted`) and `i` is a layer index; `ok` is OGRERR_NONE. */
    method DeleteLayer(i: int, accepted: bool) returns (ok: bool)
      requires Valid()
      modifies this
      ensures Valid() && open == old(open)
      ensures ok == (accepted && 0 <= i < |old(layers)|)
      ensures layers == if ok then RemoveAt(old(layers), i) else old(layers)
      ensures ok ==> old(layers)[i] !in layers
    {
      ok := accepted && 0 <= i < |layers|;
      if ok {
        DistinctRemoveAt(layers, i);
        RemovedIsGone(layers, i);
        layers := RemoveAt(layers, i);
      }
    }

    /** OGR_DS_CreateLayer: appends a new layer when the provider agrees
        (`accepted`) and a name is given; a null name (None) is refused. */
    method CreateLayer(name: Option<string>, geometry: GeometryType, accepted: bool)
      returns (l: Layer?)
      requires Valid()
      modifies this
      ensures Valid() && open == old(open)
      ensures accepted && name.Some? ==>
                l != null && fresh(l) && l.name == name.value && l.geometry == geometry
                && layers == old(layers) + [l]
      ensures !(accepted && name.Some?) ==> l == null && layers == old(layers)
    {
      if accepted && name.Some? {
        l := new Layer(name.value, geometry);
        layers := layers + [l];
      } else {
        l := null;
      }
    }
  }
}
