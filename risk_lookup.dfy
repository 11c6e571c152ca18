/**
 * The lookup a year's button builds from the risk table: one entry per
 * municipality key, holding the risk level written in that year's column of
 * the last usable record for the municipality.
 */
module RiskLookup {
  import opened Wrappers
  import opened JsText
  import opened RiskStyle
  import opened CityName
  import opened CsvTable
  import opened JsArray

  /** The column naming the municipality in every record. */
  const CityColumn: string := "city"

  /** A year's column is the year followed by this suffix. */
  const RiskSuffix: string := "_risk"

  /** The only level whose spelling is canonicalised, in its canonical and in its lower-cased form. */
  const VeryHigh: string := "Very High"
  const VeryHighLower: string := "very high"

  lemma VeryHighLowered()
    ensures ToLower(VeryHigh) == VeryHighLower
  {
    var r := ToLower(VeryHigh);
    assert forall i :: 0 <= i < 9 ==> r[i] == VeryHighLower[i];
  }

  /**
   * The level stored for a field: the field trimmed, and any casing of
   * `very high` replaced by the canonical `Very High`. The result is empty
   * exactly when the field is all whitespace.
   */
  function RiskValue(raw: string): (risk: string)
    ensures IsTrimmed(risk)
    ensures risk == "" <==> Trim(raw) == ""
  {
    var t := Trim(raw);
    if ToLower(t) == VeryHighLower then VeryHigh else t
  }

  /**
   * Only the case of the trimmed field may change, and it changes only for
   * the spellings of `very high`, which all become `Very High`.
   */
  lemma RiskValueSpelling(raw: string)
    ensures ToLower(RiskValue(raw)) == ToLower(Trim(raw))
    ensures ToLower(Trim(raw)) == VeryHighLower ==> RiskValue(raw) == VeryHigh
    ensures ToLower(Trim(raw)) != VeryHighLower ==> RiskValue(raw) == Trim(raw)
  {
    VeryHighLowered();
  }

  /** Storing a stored level again changes nothing. */
  lemma RiskValueIdempotent(raw: string)
    ensures RiskValue(RiskValue(raw)) == RiskValue(raw)
  {
    var t := Trim(raw);
    var r := RiskValue(raw);
    TrimFixed(r);
    if ToLower(t) == VeryHighLower {
      assert r == VeryHigh;
      VeryHighLowered();
    } else {
      assert r == t;
    }
  }

  /** Every casing of `very high`, with any surrounding whitespace, is drawn in the colour of `Very High`. */
  lemma VeryHighInAnyCase(raw: string)
    requires ToLower(Trim(raw)) == VeryHighLower
    ensures GetColor(Some(RiskValue(raw))) == GetColor(Some(VeryHigh)) == "darkviolet"
  {
    RiskValueSpelling(raw);
  }

  /** `row.city && row[column]`: both fields present and non-empty. */
  predicate Usable(row: Row, column: string)
  {
    Truthy(Get(row, CityColumn)) && Truthy(Get(row, column))
  }

  /** The key a usable record is filed under. */
  function CityKey(row: Row): string
  {
    NormalizeCity(Get(row, CityColumn))
  }

  /** One assignment into the lookup: a key and the level stored under it. */
  datatype Entry = Entry(city: string, risk: string)

  /** What one record contributes: its key and level when it is usable, nothing otherwise. */
  function EntryOf(row: Row, column: string): (e: Option<Entry>)
    ensures e.Some? <==> Usable(row, column)
  {
    if Usable(row, column) then Some(Entry(CityKey(row), RiskValue(Get(row, column).value))) else None
  }

  /** What the records contribute, in order. */
  function EntriesOf(rows: seq<Row>, column: string): (es: seq<Option<Entry>>)
    ensures |es| == |rows|
  {
    MapSeq(rows, row => EntryOf(row, column))
  }

  /** Entry `i` comes from record `i`. */
  lemma EntriesAt(rows: seq<Row>, column: string, i: nat)
    requires i < |rows|
    ensures EntriesOf(rows, column)[i] == EntryOf(rows[i], column)
  {
    MapSeqAt(rows, row => EntryOf(row, column), i);
  }

  /** The assignments made in order into an empty object, a later one overwriting an earlier one with the same key. */
  function Fill(es: seq<Option<Entry>>): map<string, string>
    decreases |es|
  {
    if es == [] then map[]
    else
      var n := |es| - 1;
      var before := Fill(es[..n]);
      if es[n].Some? then before[es[n].value.city := es[n].value.risk] else before
  }

  /** A key is filled exactly when some assignment names it. */
  lemma {:induction false} FillKeys(es: seq<Option<Entry>>, key: string)
    ensures key in Fill(es) <==> exists i :: 0 <= i < |es| && es[i].Some? && es[i].value.city == key
    decreases |es|
  {
    if es != [] {
      var n := |es| - 1;
      FillKeys(es[..n], key);
      if exists i :: 0 <= i < n && es[..n][i].Some? && es[..n][i].value.city == key {
        var i :| 0 <= i < n && es[..n][i].Some? && es[..n][i].value.city == key;
        assert es[i] == es[..n][i];
      }
      if exists i :: 0 <= i < |es| && es[i].Some? && es[i].value.city == key {
        var i :| 0 <= i < |es| && es[i].Some? && es[i].value.city == key;
        if i < n {
          assert es[..n][i] == es[i];
        }
      }
    }
  }

  /** No later assignment names the key of assignment `i`. */
  predicate IsLastEntry(es: seq<Option<Entry>>, i: nat)
    requires i < |es| && es[i].Some?
  {
    forall j :: i < j < |es| ==> !(es[j].Some? && es[j].value.city == es[i].value.city)
  }

  /** The last assignment to a key decides what it holds. */
  lemma {:induction false} FillLastWins(es: seq<Option<Entry>>, i: nat)
    requires i < |es| && es[i].Some? && IsLastEntry(es, i)
    ensures es[i].value.city in Fill(es)
    ensures Fill(es)[es[i].value.city] == es[i].value.risk
    decreases |es|
  {
    var n := |es| - 1;
    if i < n {
      assert es[..n][i] == es[i];
      assert IsLastEntry(es[..n], i) by {
        forall j | i < j < n ensures !(es[..n][j].Some? && es[..n][j].value.city == es[..n][i].value.city) {
          assert es[..n][j] == es[j];
        }
      }
      FillLastWins(es[..n], i);
    }
  }

  /** Every value filled is the level of some assignment. */
  lemma {:induction false} FillValues(es: seq<Option<Entry>>, key: string)
    requires key in Fill(es)
    ensures exists i :: 0 <= i < |es| && es[i].Some? && es[i].value.city == key && Fill(es)[key] == es[i].value.risk
    decreases |es|
  {
    var n := |es| - 1;
    if !(es[n].Some? && es[n].value.city == key) {
      FillValues(es[..n], key);
      var i :| 0 <= i < n && es[..n][i].Some? && es[..n][i].value.city == key && Fill(es[..n])[key] == es[..n][i].value.risk;
      assert es[i] == es[..n][i];
    }
  }

  /**
   * The lookup after the records have been visited in order: each usable
   * record sets its key to its level, overwriting what an earlier record
   * with the same key set; unusable records are skipped.
   */
  function LookupOf(rows: seq<Row>, column: string): map<string, string>
  {
    Fill(EntriesOf(rows, column))
  }

  /** A key is in the lookup exactly when some usable record is filed under it. */
  lemma LookupKeys(rows: seq<Row>, column: string, key: string)
    ensures key in LookupOf(rows, column)
            <==> exists i :: 0 <= i < |rows| && Usable(rows[i], column) && CityKey(rows[i]) == key
  {
    var es := EntriesOf(rows, column);
    FillKeys(es, key);
    if exists i :: 0 <= i < |rows| && Usable(rows[i], column) && CityKey(rows[i]) == key {
      var i :| 0 <= i < |rows| && Usable(rows[i], column) && CityKey(rows[i]) == key;
      EntriesAt(rows, column, i);
      assert es[i].Some? && es[i].value.city == key;
    }
    if exists i :: 0 <= i < |es| && es[i].Some? && es[i].value.city == key {
      var i :| 0 <= i < |es| && es[i].Some? && es[i].value.city == key;
      EntriesAt(rows, column, i);
      assert Usable(rows[i], column) && CityKey(rows[i]) == key;
    }
  }

  /** No usable record after position `i` is filed under the key of record `i`. */
  predicate IsLastFor(rows: seq<Row>, column: string, i: nat)
    requires i < |rows|
  {
    forall j :: i < j < |rows| ==> !(Usable(rows[j], column) && CityKey(rows[j]) == CityKey(rows[i]))
  }

  /** The last usable record filed under a key decides the key's level. */
  lemma LookupLastWins(rows: seq<Row>, column: string, i: nat)
    requires i < |rows| && Usable(rows[i], column) && IsLastFor(rows, column, i)
    ensures CityKey(rows[i]) in LookupOf(rows, column)
    ensures LookupOf(rows, column)[CityKey(rows[i])] == RiskValue(Get(rows[i], column).value)
  {
    var es := EntriesOf(rows, column);
    EntriesAt(rows, column, i);
    assert IsLastEntry(es, i) by {
      forall j | i < j < |es| ensures !(es[j].Some? && es[j].value.city == es[i].value.city) {
        EntriesAt(rows, column, j);
      }
    }
    FillLastWins(es, i);
  }

  /** A year whose column no record has gives an empty lookup, so every municipality reads as unknown. */
  lemma MissingColumnEmpty(rows: seq<Row>, column: string)
    requires forall i :: 0 <= i < |rows| ==> column !in rows[i]
    ensures LookupOf(rows, column) == map[]
  {
    forall key ensures key !in LookupOf(rows, column) {
      LookupKeys(rows, column, key);
    }
  }

  /**
   * Lines 111-123 of js/map.js: an empty lookup filled by visiting the
   * records in order.
   */
  method BuildLookup(rows: seq<Row>, year: string) returns (lookup: map<string, string>)
    ensures lookup == LookupOf(rows, year + RiskSuffix)
  {
    var column := year + RiskSuffix;
    lookup := map[];
    var i := 0;
    while i < |rows|
      invariant 0 <= i <= |rows|
      invariant lookup == LookupOf(rows[..i], column)
    {
      var row := rows[i];
      LookupStep(rows, column, i);
      if Truthy(Get(row, CityColumn)) && Truthy(Get(row, column)) {
        var city := NormalizeCity(Get(row, CityColumn));
        var risk := RiskValue(Get(row, column).value);
        lookup := lookup[city := risk];
      }
      i := i + 1;
    }
    assert rows[..i] == rows;
  }

  /** Visiting one more record applies that record's entry, if any, to the lookup so far. */
  lemma LookupStep(rows: seq<Row>, column: string, i: nat)
    requires i < |rows|
    ensures LookupOf(rows[..i + 1], column)
            == if Usable(rows[i], column)
               then LookupOf(rows[..i], column)[CityKey(rows[i]) := RiskValue(Get(rows[i], column).value)]
               else LookupOf(rows[..i], column)
  {
    var p := rows[..i + 1];
    var f := row => EntryOf(row, column);
    assert p[..i] == rows[..i] && p[i] == rows[i];
    assert MapSeq(p, f) == MapSeq(rows[..i], f) + [f(rows[i])];
    var es := EntriesOf(p, column);
    assert es[..i] == EntriesOf(rows[..i], column) && es[i] == EntryOf(rows[i], column);
  }

  /**
   * `riskLookup[city] || 'Unknown'`: the stored level when there is one and
   * it is not empty, `Unknown` otherwise. Never empty.
   */
  function RiskFor(lookup: map<string, string>, key: string): (risk: string)
    ensures risk != ""
    ensures key !in lookup ==> risk == Unknown
    ensures key in lookup && lookup[key] != "" ==> risk == lookup[key]
    ensures key in lookup && lookup[key] == "" ==> risk == Unknown
  {
    if key in lookup && lookup[key] != "" then lookup[key] else Unknown
  }

  /** Every field of a table the reader produced is trimmed, so every level stored from it is non-empty. */
  lemma TrimmedRowsStoreLevels(rows: seq<Row>, column: string)
    requires forall i :: 0 <= i < |rows| ==> IsTrimmedRow(rows[i])
    ensures forall key :: key in LookupOf(rows, column) ==> LookupOf(rows, column)[key] != ""
  {
    var es := EntriesOf(rows, column);
    forall key | key in LookupOf(rows, column) ensures LookupOf(rows, column)[key] != "" {
      FillValues(es, key);
      var i :| 0 <= i < |es| && es[i].Some? && es[i].value.city == key && Fill(es)[key] == es[i].value.risk;
      EntriesAt(rows, column, i);
      var v := Get(rows[i], column).value;
      assert IsTrimmed(v) && v != "";
      TrimFixed(v);
    }
  }

  /** No record of a table the reader produced is filed under the empty key. */
  lemma TrimmedRowsHaveKeys(rows: seq<Row>, column: string)
    requires forall i :: 0 <= i < |rows| ==> IsTrimmedRow(rows[i])
    ensures "" !in LookupOf(rows, column)
  {
    LookupKeys(rows, column, "");
    forall i | 0 <= i < |rows| && Usable(rows[i], column) ensures CityKey(rows[i]) != "" {
      var city := Get(rows[i], CityColumn).value;
      assert IsTrimmed(city);
      TrimmedNameHasKey(city);
    }
  }
}
