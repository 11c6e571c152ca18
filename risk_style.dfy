/**
 * The colour policy of the risk map: a boundary feature, the risk level it
 * carries, the colour that level is drawn in, and the style record handed
 * to the rendering library for each feature.
 */
module RiskStyle {
  import opened Wrappers

  /** The level every feature carries before a year is chosen, and after a reset. */
  const Unknown: string := "Unknown"

  /** The colour drawn for every level outside the four rated ones. */
  const DefaultColor: string := "lightgrey"

  /**
   * One municipality polygon of the boundary file. `adm3En` is its name
   * (`properties.adm3_en`, possibly absent), `riskLevel` is
   * `properties.risk_level` (absent until the map is first bound), and
   * `other` stands for every other property and the geometry, which this
   * model carries along without interpreting.
   */
  datatype Feature = Feature(adm3En: Option<string>, riskLevel: Option<string>, other: map<string, string>)

  /** The style record the rendering library takes for one feature. */
  datatype StyleProps = StyleProps(fillColor: string, weight: int, color: string, fillOpacity: real)

  /** The four levels that have a colour of their own (exact, case-sensitive match). */
  predicate IsRated(risk: Option<string>)
  {
    risk == Some("Low") || risk == Some("Moderate") || risk == Some("High") || risk == Some("Very High")
  }

  /** The colours the policy can produce. */
  predicate IsPaletteColor(color: string)
  {
    color == "green" || color == "yellow" || color == "red" || color == "darkviolet" || color == DefaultColor
  }

  /**
   * `getColor`: total over every input, absent included. Each rated level
   * has its own colour; everything else (`Unknown`, other casings, absent)
   * falls to the default colour.
   */
  function GetColor(risk: Option<string>): (color: string)
    ensures IsPaletteColor(color)
    ensures color == DefaultColor <==> !IsRated(risk)
    ensures risk == Some("Low") ==> color == "green"
    ensures risk == Some("Moderate") ==> color == "yellow"
    ensures risk == Some("High") ==> color == "red"
    ensures risk == Some("Very High") ==> color == "darkviolet"
  {
    match risk
    case Some("Low") => "green"
    case Some("Moderate") => "yellow"
    case Some("High") => "red"
    case Some("Very High") => "darkviolet"
    case _ => DefaultColor
  }

  /**
   * Reading a colour back as a rated level. The page has no such function;
   * it is the inverse used to show that the policy tells the rated levels apart.
   */
  function LevelOf(color: string): Option<string>
  {
    match color
    case "green" => Some("Low")
    case "yellow" => Some("Moderate")
    case "red" => Some("High")
    case "darkviolet" => Some("Very High")
    case _ => None
  }

  /** `LevelOf` inverts the policy on the rated levels, and nothing else reads as a level. */
  lemma LevelOfInvertsColor(risk: Option<string>)
    ensures IsRated(risk) ==> LevelOf(GetColor(risk)) == risk
    ensures !IsRated(risk) ==> LevelOf(GetColor(risk)) == None
  {
  }

  /** Two rated levels are drawn alike only when they are the same level. */
  lemma RatedColorsDistinct(a: Option<string>, b: Option<string>)
    requires IsRated(a) && IsRated(b)
    ensures GetColor(a) == GetColor(b) <==> a == b
  {
    LevelOfInvertsColor(a);
    LevelOfInvertsColor(b);
  }

  /**
   * `style`: the fill colour comes from the colour policy applied to the
   * feature's level; the stroke is always 1 pixel of black and the fill
   * opacity always 0.6, whatever the feature.
   */
  function Style(f: Feature): (s: StyleProps)
    ensures s.fillColor == GetColor(f.riskLevel)
    ensures s.weight == 1 && s.color == "black" && s.fillOpacity == 0.6
  {
    StyleProps(GetColor(f.riskLevel), 1, "black", 0.6)
  }

  /** The style of a feature depends on its level alone, not on its name or geometry. */
  lemma StyleDependsOnLevelOnly(f: Feature, g: Feature)
    ensures Style(f) == Style(g) <==> GetColor(f.riskLevel) == GetColor(g.riskLevel)
  {
  }
}
