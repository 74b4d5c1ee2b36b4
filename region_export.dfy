/** The export button of the map page: every drawn layer, in drawing order, selects the
    points it contains; each selected point is copied, tagged with the layer's colour
    under `COR_POLIGONO`, and appended to the export, which is then written as CSV. */
module RegionExport {
  import opened Wrappers
  import opened Seqs
  import opened JsRecords
  import opened CsvExport

  const DefaultColor := "#3388ff"
  const ColorKey := "COR_POLIGONO"
  const ExportFileName := "dados_com_cores.csv"

  datatype LatLng = LatLng(lat: real, lng: real)

  /** A drawn layer's geometry: a Leaflet circle, or any other drawn shape (polygon,
      rectangle) as the GeoJSON ring it converts to. */
  datatype Shape = Circle(center: LatLng, radius: real) | Polygon(ring: seq<LatLng>)

  /** A drawn layer; `colorName` is `layer.options.color_name`, absent when never set. */
  datatype Layer = Layer(shape: Shape, colorName: Option<string>)

  /** The two library routines the handler relies on: Leaflet's `map.distance` from a
      point's coordinates to a centre, in metres, and turf's `booleanPointInPolygon`. */
  datatype Geometry = Geometry(distance: (Record, LatLng) -> real, inPolygon: (Record, seq<LatLng>) -> bool)

  /** What a click on the export button ends in. */
  datatype ClickOutcome =
    | NothingDrawn                                // alert: draw at least one shape
    | NothingFound                                // alert: no point inside the shapes
    | Download(fileName: string, contents: string)
    | Crash                                       // a TypeError thrown by the CSV writer

  /** `layer.options.color_name || '#3388ff'`: an absent or empty colour falls back to
      the default. */
  function LayerColor(layer: Layer): (c: string)
    ensures c != ""
    ensures c == DefaultColor || (layer.colorName.Some? && c == layer.colorName.value)
    ensures layer.colorName.None? ==> c == DefaultColor
    ensures layer.colorName.Some? && layer.colorName.value != "" ==> c == layer.colorName.value
  {
    if layer.colorName.Some? && layer.colorName.value != "" then layer.colorName.value else DefaultColor
  }

  /** Whether the layer contains the point; for a circle, a point exactly on the rim
      (distance equal to the radius) is inside. */
  predicate Contains(geo: Geometry, layer: Layer, p: Record)
  {
    match layer.shape
    case Circle(center, radius) => geo.distance(p, center) <= radius
    case Polygon(ring) => geo.inPolygon(p, ring)
  }

  /** `Object.assign({}, p)` followed by `row['COR_POLIGONO'] = color`: a copy of the point
      whose only difference is the colour key. */
  function Tag(p: Record, color: string): (row: Record)
    ensures Get(row, ColorKey) == JStr(color)
    ensures forall k :: k != ColorKey ==> Get(row, k) == Get(p, k)
    ensures Keys(row) == if ColorKey in Keys(p) then Keys(p) else Keys(p) + [ColorKey]
  {
    Set(p, ColorKey, JStr(color))
  }

  /** Each point tagged with the colour. */
  function TagAll(ps: seq<Record>, color: string): (rows: seq<Record>)
    ensures |rows| == |ps|
  {
    Map(ps, TagWith(color))
  }

  function TagWith(color: string): Record -> Record
  {
    p => Tag(p, color)
  }

  /** `points_in_area`: the points the layer contains, in data order. */
  function PointsIn(geo: Geometry, layer: Layer, points: seq<Record>): seq<Record>
  {
    Filter(points, Inside(geo, layer))
  }

  /** The layer's membership test, as a filter. */
  function Inside(geo: Geometry, layer: Layer): Record -> bool
  {
    (p: Record) => Contains(geo, layer, p)
  }

  /** Which layers contain the point, as a filter over layers. */
  function HasPoint(geo: Geometry, p: Record): Layer -> bool
  {
    l => Contains(geo, l, p)
  }

  /** What one layer contributes to the export. */
  function LayerRows(geo: Geometry, layer: Layer, points: seq<Record>): seq<Record>
  {
    TagAll(PointsIn(geo, layer, points), LayerColor(layer))
  }

  /** `all_exported_data` after the given layers: their contributions one after another. */
  function Aggregate(geo: Geometry, layers: seq<Layer>, points: seq<Record>): seq<Record>
  {
    FlatMap(layers, RowsOf(geo, points))
  }

  /** Each layer's contribution, as a function of the layer. */
  function RowsOf(geo: Geometry, points: seq<Record>): Layer -> seq<Record>
  {
    l => LayerRows(geo, l, points)
  }

  /** `points_in_area.forEach(p => { ... all_exported_data.push(row); })`: a tagged copy
      of each point, appended in order. */
  method PushTagged(allExported: seq<Record>, inArea: seq<Record>, color: string) returns (grown: seq<Record>)
    ensures grown == allExported + TagAll(inArea, color)
  {
    grown := allExported;
    var j := 0;
    while j < |inArea|
      invariant 0 <= j <= |inArea|
      invariant grown == allExported + TagAll(inArea[..j], color)
    {
      var row := Set(inArea[j], ColorKey, JStr(color));
      MapStep(inArea, j, TagWith(color));
      AppendAssoc(allExported, TagAll(inArea[..j], color), [row]);
      grown := grown + [row];
      j := j + 1;
    }
    assert inArea[..j] == inArea;
  }

  /** The click handler: the alert cases, the two nested loops that fill
      `all_exported_data`, and the call to the CSV writer. */
  method ExportClick(geo: Geometry, layers: seq<Layer>, points: seq<Record>, show: real -> string)
    returns (outcome: ClickOutcome)
    ensures layers == [] ==> outcome == NothingDrawn
    ensures layers != [] && Aggregate(geo, layers, points) == [] ==> outcome == NothingFound
    ensures layers != [] && Aggregate(geo, layers, points) != [] ==>
              outcome == match CsvText(Aggregate(geo, layers, points), show)
                         case Some(file) => Download(ExportFileName, file)
                         case None => Crash
  {
    var allExported: seq<Record> := [];
    if |layers| == 0 {
      return NothingDrawn;
    }
    var i := 0;
    while i < |layers|
      invariant 0 <= i <= |layers|
      invariant allExported == Aggregate(geo, layers[..i], points)
    {
      var layer := layers[i];
      var color := LayerColor(layer);
      var inArea := PointsIn(geo, layer, points);
      allExported := PushTagged(allExported, inArea, color);
      assert layers[..i + 1] == layers[..i] + [layer];
      AggregateSnoc(geo, layers[..i], layer, points);
      i := i + 1;
    }
    assert layers[..i] == layers;
    if |allExported| == 0 {
      return NothingFound;
    }
    var file := ExportToCsv(allExported, show);
    if file.None? {
      return Crash;
    }
    return Download(ExportFileName, file.value);
  }

  // ---------------------------------------------------------------------------
  // Properties of the export
  // ---------------------------------------------------------------------------

  /** The export of several layers is the export of the earlier ones followed by that of
      the later ones: the output is in drawing order. */
  lemma AggregateConcat(geo: Geometry, first: seq<Layer>, later: seq<Layer>, points: seq<Record>)
    ensures Aggregate(geo, first + later, points) == Aggregate(geo, first, points) + Aggregate(geo, later, points)
  {
    FlatMapConcat(first, later, RowsOf(geo, points));
  }

  /** One more layer adds its own rows at the end. */
  lemma AggregateSnoc(geo: Geometry, layers: seq<Layer>, layer: Layer, points: seq<Record>)
    ensures Aggregate(geo, layers + [layer], points) == Aggregate(geo, layers, points) + LayerRows(geo, layer, points)
  {
    FlatMapSnoc(layers, layer, RowsOf(geo, points));
  }

  /** The colours of the given layers that contain `p`, in drawing order. */
  function ColorsContaining(geo: Geometry, layers: seq<Layer>, p: Record): (cs: seq<string>)
  {
    Map(Filter(layers, HasPoint(geo, p)), LayerColor)
  }

  /** A point contained in k layers is exported exactly k times, once per layer in
      drawing order, each copy tagged with that layer's colour: there is no
      de-duplication. */
  lemma {:induction false} OnePointExport(geo: Geometry, layers: seq<Layer>, p: Record)
    ensures Aggregate(geo, layers, [p]) == Copies(p, ColorsContaining(geo, layers, p))
    ensures |Aggregate(geo, layers, [p])| == |Filter(layers, HasPoint(geo, p))|
  {
    if layers != [] {
      var n := |layers| - 1;
      var last := layers[n];
      var hit := if Contains(geo, last, p) then [LayerColor(last)] else [];
      OnePointExport(geo, layers[..n], p);
      SplitLast(layers);
      AggregateSnoc(geo, layers[..n], last, [p]);
      LayerRowsSingle(geo, last, p);
      ColorsStep(geo, layers, p);
      CopiesAppend(p, ColorsContaining(geo, layers[..n], p), hit);
    }
  }

  /** The point tagged with each of the colours in turn. */
  function Copies(p: Record, cs: seq<string>): (rows: seq<Record>)
    ensures |rows| == |cs|
  {
    seq(|cs|, k requires 0 <= k < |cs| => Tag(p, cs[k]))
  }

  lemma CopiesAppend(p: Record, a: seq<string>, b: seq<string>)
    ensures Copies(p, a + b) == Copies(p, a) + Copies(p, b)
  {
    var l, r := Copies(p, a + b), Copies(p, a) + Copies(p, b);
    forall k | 0 <= k < |l|
      ensures l[k] == r[k]
    {
      if k < |a| { assert (a + b)[k] == a[k]; } else { assert (a + b)[k] == b[k - |a|]; }
    }
  }

  /** Colours of the layers containing `p`, split off at the last layer. */
  lemma ColorsStep(geo: Geometry, layers: seq<Layer>, p: Record)
    requires layers != []
    ensures var n := |layers| - 1;
            ColorsContaining(geo, layers, p)
            == ColorsContaining(geo, layers[..n], p)
               + (if Contains(geo, layers[n], p) then [LayerColor(layers[n])] else [])
    ensures var n := |layers| - 1;
            |Filter(layers, HasPoint(geo, p))|
            == |Filter(layers[..n], HasPoint(geo, p))| + (if Contains(geo, layers[n], p) then 1 else 0)
  {
    var n := |layers| - 1;
    SplitLast(layers);
    MapFilterSnoc(layers[..n], layers[n], HasPoint(geo, p), LayerColor);
  }

  /** One point's rows for one layer: its tagged copy if the layer contains it. */
  lemma LayerRowsSingle(geo: Geometry, layer: Layer, p: Record)
    ensures LayerRows(geo, layer, [p]) == Copies(p, if Contains(geo, layer, p) then [LayerColor(layer)] else [])
  {
    assert [p][1..] == [];
  }

  /** A layer's rows for two batches of points are the rows of each batch, in order. */
  lemma LayerRowsAppend(geo: Geometry, layer: Layer, a: seq<Record>, b: seq<Record>)
    ensures LayerRows(geo, layer, a + b) == LayerRows(geo, layer, a) + LayerRows(geo, layer, b)
  {
    FilterAppend(a, b, Inside(geo, layer));
    MapAppend(PointsIn(geo, layer, a), PointsIn(geo, layer, b), TagWith(LayerColor(layer)));
  }

  /** Exporting two batches of points together yields, row for row, what exporting each
      batch on its own yields: points do not influence each other's rows. */
  lemma {:induction false} ExportSplitsOverPoints(geo: Geometry, layers: seq<Layer>, a: seq<Record>, b: seq<Record>)
    ensures multiset(Aggregate(geo, layers, a + b)) == multiset(Aggregate(geo, layers, a)) + multiset(Aggregate(geo, layers, b))
  {
    if layers != [] {
      var n := |layers| - 1;
      ExportSplitsOverPoints(geo, layers[..n], a, b);
      LayerRowsAppend(geo, layers[n], a, b);
    }
  }

  /** No point data means nothing to export, whatever was drawn. */
  lemma {:induction false} NoPointsNoExport(geo: Geometry, layers: seq<Layer>)
    ensures Aggregate(geo, layers, []) == []
  {
    if layers != [] {
      NoPointsNoExport(geo, layers[..|layers| - 1]);
    }
  }

  /** A point at distance exactly the radius from a circle's centre is kept. */
  lemma CircleRimIncluded(geo: Geometry, center: LatLng, radius: real, color: Option<string>, p: Record)
    requires geo.distance(p, center) == radius
    ensures Contains(geo, Layer(Circle(center, radius), color), p)
  {
  }
}
