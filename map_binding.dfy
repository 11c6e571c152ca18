/**
 * The state of the risk map page and its two buttons: the layer of drawn
 * municipality polygons and the risk table, both absent until the data has
 * loaded; the reset button, which greys every polygon; and a year's button,
 * which colours every polygon by the level the table gives its municipality
 * for that year.
 */
module MapBinding {
  import opened Wrappers
  import opened RiskStyle
  import opened CityName
  import opened CsvTable
  import opened RiskLookup
  import opened JsArray
  import opened JsText

  /** One drawn polygon: the feature it shows and the style it was last given. */
  datatype Layer = Layer(feature: Feature, style: StyleProps)

  /** `properties.risk_level = risk`: the level replaced, the name and everything else kept. */
  function WithRisk(f: Feature, risk: string): Feature
  {
    f.(riskLevel := Some(risk))
  }

  /** A polygon drawn in the style of its own feature (`layer.setStyle(style(layer.feature))`). */
  function Draw(f: Feature): Layer
  {
    Layer(f, Style(f))
  }

  /** Every feature tagged `Unknown`. */
  function BaseMap(features: seq<Feature>): (r: seq<Feature>)
    ensures |r| == |features|
  {
    seq(|features|, i requires 0 <= i < |features| => WithRisk(features[i], Unknown))
  }

  /** The level a feature reads from the lookup, found under its normalised name. */
  function JoinedRisk(f: Feature, lookup: map<string, string>): string
  {
    RiskFor(lookup, NormalizeCity(f.adm3En))
  }

  /** Every feature tagged with the level the lookup gives its name. */
  function Joined(features: seq<Feature>, lookup: map<string, string>): (r: seq<Feature>)
    ensures |r| == |features|
  {
    MapSeq(features, f => WithRisk(f, JoinedRisk(f, lookup)))
  }

  /** Feature `k` of a joined map. */
  lemma JoinedAt(features: seq<Feature>, lookup: map<string, string>, k: nat)
    requires k < |features|
    ensures Joined(features, lookup)[k] == WithRisk(features[k], JoinedRisk(features[k], lookup))
  {
    MapSeqAt(features, f => WithRisk(f, JoinedRisk(f, lookup)), k);
  }

  /** Every feature drawn in its own style. */
  function Render(features: seq<Feature>): (r: seq<Layer>)
    ensures |r| == |features|
  {
    seq(|features|, i requires 0 <= i < |features| => Draw(features[i]))
  }

  /** The features the polygons show. */
  function FeaturesOf(layers: seq<Layer>): (r: seq<Feature>)
    ensures |r| == |layers|
  {
    seq(|layers|, i requires 0 <= i < |layers| => layers[i].feature)
  }

  /** Every polygon carries the style of its own feature. */
  predicate Drawn(layers: seq<Layer>)
  {
    forall i :: 0 <= i < |layers| ==> layers[i].style == Style(layers[i].feature)
  }

  /** Drawing loses no feature, and what is drawn is in its own style; drawn layers are the drawing of their features. */
  lemma RenderRoundTrip(features: seq<Feature>, layers: seq<Layer>)
    ensures Drawn(Render(features)) && FeaturesOf(Render(features)) == features
    ensures Drawn(layers) ==> Render(FeaturesOf(layers)) == layers
  {
    if Drawn(layers) {
      var r := Render(FeaturesOf(layers));
      forall i | 0 <= i < |layers| ensures r[i] == layers[i] {
        assert layers[i].style == Style(layers[i].feature);
      }
    }
  }

  /** The base map keeps every name and other property, tags every feature `Unknown` and draws it grey. */
  lemma BaseMapGrey(features: seq<Feature>, i: nat)
    requires i < |features|
    ensures BaseMap(features)[i].adm3En == features[i].adm3En
    ensures BaseMap(features)[i].other == features[i].other
    ensures BaseMap(features)[i].riskLevel == Some(Unknown)
    ensures Render(BaseMap(features))[i].style.fillColor == DefaultColor
  {
  }

  /** Resetting twice is resetting once. */
  lemma BaseMapIdempotent(features: seq<Feature>)
    ensures BaseMap(BaseMap(features)) == BaseMap(features)
  {
  }

  /** A reset undoes any year's colouring: the map is the base map again. */
  lemma ResetUndoesUpdate(features: seq<Feature>, lookup: map<string, string>)
    ensures BaseMap(Joined(features, lookup)) == BaseMap(features)
  {
    forall k | 0 <= k < |features| ensures BaseMap(Joined(features, lookup))[k] == BaseMap(features)[k] {
      JoinedAt(features, lookup, k);
    }
  }

  /**
   * A year's colouring depends on the names alone: whatever year or reset
   * came before, choosing a year gives the same map.
   */
  lemma UpdateForgetsPrevious(features: seq<Feature>, before: map<string, string>, lookup: map<string, string>)
    ensures Joined(Joined(features, before), lookup) == Joined(features, lookup)
    ensures Joined(BaseMap(features), lookup) == Joined(features, lookup)
  {
    var b := Joined(features, lookup);
    var a := Joined(Joined(features, before), lookup);
    forall i | 0 <= i < |features| ensures a[i] == b[i] {
      RejoinedAt(features, before, lookup, i);
    }
    JoinedAfterReset(features, lookup);
  }

  /** A reset before choosing a year leaves no trace. */
  lemma JoinedAfterReset(features: seq<Feature>, lookup: map<string, string>)
    ensures Joined(BaseMap(features), lookup) == Joined(features, lookup)
  {
    var b := Joined(features, lookup);
    var c := Joined(BaseMap(features), lookup);
    forall i | 0 <= i < |features| ensures c[i] == b[i] {
      JoinedBaseAt(features, lookup, i);
    }
  }

  /** Feature `i` of a map coloured for one year and then for another. */
  lemma RejoinedAt(features: seq<Feature>, before: map<string, string>, lookup: map<string, string>, i: nat)
    requires i < |features|
    ensures Joined(Joined(features, before), lookup)[i] == Joined(features, lookup)[i]
  {
    JoinedAt(features, before, i);
    JoinedAt(Joined(features, before), lookup, i);
    JoinedAt(features, lookup, i);
    RetagKeepsJoin(features[i], JoinedRisk(features[i], before), lookup);
  }

  /** Feature `i` of the base map coloured for a year. */
  lemma JoinedBaseAt(features: seq<Feature>, lookup: map<string, string>, i: nat)
    requires i < |features|
    ensures Joined(BaseMap(features), lookup)[i] == Joined(features, lookup)[i]
  {
    JoinedAt(BaseMap(features), lookup, i);
    JoinedAt(features, lookup, i);
    RetagKeepsJoin(features[i], Unknown, lookup);
  }

  /** Re-tagging a feature does not change the level it reads from a lookup. */
  lemma RetagKeepsJoin(f: Feature, risk: string, lookup: map<string, string>)
    ensures JoinedRisk(WithRisk(f, risk), lookup) == JoinedRisk(f, lookup)
  {
    assert WithRisk(f, risk).adm3En == f.adm3En;
  }

  /**
   * What a year's colouring does to feature `i`: its name and other
   * properties are kept; it takes the level stored under its normalised name
   * when there is a non-empty one, `Unknown` otherwise, and the colour of
   * that level.
   */
  lemma JoinedFeature(features: seq<Feature>, lookup: map<string, string>, i: nat)
    requires i < |features|
    ensures var key := NormalizeCity(features[i].adm3En);
            var level := if key in lookup && lookup[key] != "" then lookup[key] else Unknown;
            && Joined(features, lookup)[i].adm3En == features[i].adm3En
            && Joined(features, lookup)[i].other == features[i].other
            && Joined(features, lookup)[i].riskLevel == Some(level)
            && Render(Joined(features, lookup))[i].style.fillColor == GetColor(Some(level))
  {
    JoinedAt(features, lookup, i);
  }

  /**
   * The join end to end: when the last usable record of the year's column
   * for a municipality has the same key as a feature's name, the feature is
   * drawn in the colour of that record's level, for any table the reader
   * produced.
   */
  lemma MatchedFeatureColor(rows: seq<Row>, year: string, features: seq<Feature>, i: nat, r: nat)
    requires forall k :: 0 <= k < |rows| ==> IsTrimmedRow(rows[k])
    requires i < |features| && r < |rows|
    requires Usable(rows[r], year + RiskSuffix) && IsLastFor(rows, year + RiskSuffix, r)
    requires CityKey(rows[r]) == NormalizeCity(features[i].adm3En)
    ensures Render(Joined(features, LookupOf(rows, year + RiskSuffix)))[i].style.fillColor
            == GetColor(Some(RiskValue(Get(rows[r], year + RiskSuffix).value)))
  {
    var column := year + RiskSuffix;
    var lookup := LookupOf(rows, column);
    LookupLastWins(rows, column, r);
    TrimmedRowsStoreLevels(rows, column);
    JoinedFeature(features, lookup, i);
  }

  /**
   * A feature whose name no usable record of the year's column matches
   * stays grey; so does every feature without a name, since no record of a
   * table the reader produced is filed under the empty key.
   */
  lemma UnmatchedFeatureGrey(rows: seq<Row>, year: string, features: seq<Feature>, i: nat)
    requires forall k :: 0 <= k < |rows| ==> IsTrimmedRow(rows[k])
    requires i < |features|
    requires || features[i].adm3En.None? || features[i].adm3En == Some("")
             || (forall r :: 0 <= r < |rows| && Usable(rows[r], year + RiskSuffix) ==> CityKey(rows[r]) != NormalizeCity(features[i].adm3En))
    ensures Joined(features, LookupOf(rows, year + RiskSuffix))[i].riskLevel == Some(Unknown)
    ensures Render(Joined(features, LookupOf(rows, year + RiskSuffix)))[i].style.fillColor == DefaultColor
  {
    var column := year + RiskSuffix;
    var lookup := LookupOf(rows, column);
    var key := NormalizeCity(features[i].adm3En);
    LookupKeys(rows, column, key);
    TrimmedRowsHaveKeys(rows, column);
    assert key !in lookup;
    JoinedFeature(features, lookup, i);
  }

  /**
   * The join end to end for one municipality: a polygon named
   * `City of <name>`, with whatever other properties, and one record giving
   * the same name a level for the year. Choosing the year tags the polygon
   * with that level and draws it in the level's colour; a reset afterwards
   * tags it `Unknown` and draws it light grey.
   */
  lemma PrefixedNameJoins(y: string, year: string, level: string, other: map<string, string>)
    requires IsCleanName(ToLower(y))
    requires level != "" && IsTrimmed(level) && ToLower(level) != VeryHighLower
    ensures var features := [Feature(Some("City of " + y), Some(Unknown), other)];
            var rows: seq<Row> := [map[CityColumn := Some(y), year + RiskSuffix := Some(level)]];
            var coloured := Joined(features, LookupOf(rows, year + RiskSuffix));
            && coloured[0].riskLevel == Some(level)
            && Render(coloured)[0].style.fillColor == GetColor(Some(level))
            && BaseMap(coloured)[0].riskLevel == Some(Unknown)
            && Render(BaseMap(coloured))[0].style.fillColor == DefaultColor
  {
    var features := [Feature(Some("City of " + y), Some(Unknown), other)];
    var column := year + RiskSuffix;
    var rows: seq<Row> := [map[CityColumn := Some(y), column := Some(level)]];
    var lookup := LookupOf(rows, column);
    assert |column| == |year| + 5;
    assert Get(rows[0], column) == Some(level) && Get(rows[0], CityColumn) == Some(y);
    assert CityKey(rows[0]) == NormalizeCity(features[0].adm3En) by {
      SpellingsShareKey(y);
    }
    assert RiskValue(level) == level by {
      RiskValueSpelling(level);
      TrimFixed(level);
    }
    LookupLastWins(rows, column, 0);
    JoinedFeature(features, lookup, 0);
    BaseMapGrey(Joined(features, lookup), 0);
  }

  /**
   * An example: `City of Pasig` in the boundary file and the
   * record `Pasig,Low` under `city,2025_risk`. Choosing 2025 tags the polygon
   * `Low` and draws it green; a reset tags it `Unknown` and draws it grey.
   */
  lemma PasigScenario(other: map<string, string>)
    ensures var features := [Feature(Some("City of Pasig"), Some(Unknown), other)];
            var rows: seq<Row> := [map[CityColumn := Some("Pasig"), "2025" + RiskSuffix := Some("Low")]];
            var coloured := Joined(features, LookupOf(rows, "2025" + RiskSuffix));
            && coloured[0].riskLevel == Some("Low")
            && Render(coloured)[0].style.fillColor == "green"
            && BaseMap(coloured)[0].riskLevel == Some(Unknown)
            && Render(BaseMap(coloured))[0].style.fillColor == DefaultColor
  {
    PasigSpelling();
    assert |ToLower("Low")| == 3;
    assert IsTrimmed("Low");
    assert "City of " + "Pasig" == "City of Pasig";
    PrefixedNameJoins("Pasig", "2025", "Low", other);
  }

  /** The reset callback: a polygon tagged `Unknown` and redrawn. */
  function Greyed(l: Layer): (g: Layer)
    ensures g.feature.adm3En == l.feature.adm3En && g.feature.other == l.feature.other
    ensures g.feature.riskLevel == Some(Unknown)
    ensures g.style == Style(g.feature) && g.style.fillColor == DefaultColor
  {
    Draw(WithRisk(l.feature, Unknown))
  }

  /** The year callback: a polygon tagged with the level the lookup gives its name, and redrawn. */
  function Recolored(lookup: map<string, string>): Layer -> Layer
  {
    (l: Layer) => Draw(WithRisk(l.feature, JoinedRisk(l.feature, lookup)))
  }

  /** Running the reset callback over every polygon draws the base map of their features. */
  lemma GreyedIsRender(before: seq<Layer>)
    ensures MapSeq(before, Greyed) == Render(BaseMap(FeaturesOf(before)))
  {
    var now := MapSeq(before, Greyed);
    forall k | 0 <= k < |before| ensures now[k] == Render(BaseMap(FeaturesOf(before)))[k] {
      MapSeqAt(before, Greyed, k);
    }
  }

  /** Running the year callback over every polygon draws the joined map of their features. */
  lemma RecoloredIsRender(before: seq<Layer>, lookup: map<string, string>)
    ensures MapSeq(before, Recolored(lookup)) == Render(Joined(FeaturesOf(before), lookup))
  {
    var now := MapSeq(before, Recolored(lookup));
    forall k | 0 <= k < |before| ensures now[k] == Render(Joined(FeaturesOf(before), lookup))[k] {
      MapSeqAt(before, Recolored(lookup), k);
      JoinedAt(FeaturesOf(before), lookup, k);
    }
  }

  /**
   * Lines 77-79 of js/map.js: every feature of the boundary file tagged
   * `Unknown`, one after another.
   */
  method TagUnknown(features: seq<Feature>) returns (tagged: seq<Feature>)
    ensures tagged == BaseMap(features)
  {
    tagged := features;
    var i := 0;
    while i < |tagged|
      invariant 0 <= i <= |tagged| == |features|
      invariant forall k :: 0 <= k < i ==> tagged[k] == WithRisk(features[k], Unknown)
      invariant forall k :: i <= k < |tagged| ==> tagged[k] == features[k]
    {
      tagged := tagged[i := WithRisk(tagged[i], Unknown)];
      i := i + 1;
    }
  }

  /** The page: the drawn layer and the risk table, each absent until the data has loaded. */
  class MapView {
    /** `geojsonLayer`: null until the data has loaded. */
    var layer: array?<Layer>
    /** `csvData`: absent until the table has been read. */
    var csvData: Option<seq<Row>>

    /** Every polygon carries the style of its own feature. */
    predicate Valid()
      reads this, layer
    {
      layer != null ==> Drawn(layer[..])
    }

    /** Both the layer and the table are there; an empty table counts, as an empty array is truthy. */
    predicate Ready()
      reads this
    {
      layer != null && csvData.Some?
    }

    /** The page before any data has arrived (js/map.js lines 50-51). */
    constructor ()
      ensures layer == null && csvData == None
      ensures Valid() && !Ready()
    {
      layer := null;
      csvData := None;
    }

    /**
     * The load handler (js/map.js lines 59-85), given the boundary features
     * and the CSV text. A text with no non-blank line makes the reader throw
     * before anything is stored, and the page stays as it was. Otherwise the
     * table is stored, every feature is tagged `Unknown` and the features are
     * drawn as a new layer.
     */
    method Load(features: seq<Feature>, csvText: string) returns (loaded: bool)
      requires Valid()
      modifies this
      ensures Valid()
      ensures loaded <==> TableOfText(csvText).Parsed?
      ensures !loaded ==> layer == old(layer) && csvData == old(csvData)
      ensures loaded ==> && csvData == Some(TableOfText(csvText).rows)
                         && layer != null && fresh(layer)
                         && layer[..] == Render(BaseMap(features))
                         && Ready()
    {
      var table := ParseCsv(csvText);
      if table.Failed? {
        return false;
      }
      Bind(table.rows, features);
      return true;
    }

    /**
     * The rest of the load handler once the table is read (js/map.js lines
     * 67-81): the table is stored, every feature is tagged `Unknown` and the
     * features are drawn as a new layer.
     */
    method Bind(rows: seq<Row>, features: seq<Feature>)
      modifies this
      ensures csvData == Some(rows) && layer != null && fresh(layer)
      ensures layer[..] == Render(BaseMap(features))
      ensures Valid() && Ready()
    {
      csvData := Some(rows);
      var tagged := TagUnknown(features);
      var drawn := new Layer[|tagged|](k requires 0 <= k < |tagged| => Draw(tagged[k]));
      assert drawn[..] == Render(tagged);
      RenderRoundTrip(tagged, []);
      layer := drawn;
    }

    /**
     * `showBaseMap` (js/map.js lines 90-99): with no layer nothing happens;
     * otherwise every polygon is tagged `Unknown` and redrawn, in place.
     */
    method ShowBaseMap()
      requires Valid()
      modifies layer
      ensures Valid()
      ensures layer != null ==> layer[..] == Render(BaseMap(FeaturesOf(old(layer[..]))))
    {
      if layer == null {
        return;
      }
      ghost var before := layer[..];
      UpdateEach(layer, Greyed);
      GreyedIsRender(before);
      RenderRoundTrip(BaseMap(FeaturesOf(before)), []);
    }

    /**
     * `updateMap(year)` (js/map.js lines 101-137): when the layer or the
     * table is missing nothing happens; otherwise the lookup for the year's
     * column is built and every polygon, in place, takes the level its
     * normalised name has in the lookup (or `Unknown`) and is redrawn.
     */
    method UpdateMap(year: string)
      requires Valid()
      modifies layer
      ensures Valid()
      ensures !Ready() && layer != null ==> layer[..] == old(layer[..])
      ensures Ready() ==> layer[..] == Render(Joined(FeaturesOf(old(layer[..])), LookupOf(csvData.value, year + RiskSuffix)))
    {
      if layer == null || csvData.None? {
        return;
      }
      var lookup := BuildLookup(csvData.value, year);
      Recolor(lookup);
    }

    /**
     * Lines 128-136 of js/map.js: every polygon, in place, takes the level
     * its normalised name has in the lookup (or `Unknown`) and is redrawn.
     */
    method Recolor(lookup: map<string, string>)
      requires layer != null
      modifies layer
      ensures Valid()
      ensures layer[..] == Render(Joined(FeaturesOf(old(layer[..])), lookup))
    {
      ghost var before := layer[..];
      UpdateEach(layer, Recolored(lookup));
      RecoloredIsRender(before, lookup);
      RenderRoundTrip(Joined(FeaturesOf(before), lookup), []);
    }
  }
}
