/**
 * The star-schema transform of property.py: from the raw property/repair
 * rows it derives `property_dim`, `region_dim` and `property_fact_table`.
 */
module StarSchema {
  import opened Wrappers
  import opened Frames

  /** One row of the input CSV. The cost is carried along, never computed on. */
  datatype Row = Row(
    propertyId: int,
    regionName: string,
    constructionYear: int,
    repairYear: int,
    repairCount: int,
    totalRepairCost: real)

  /** The three columns selected for `property_dim`. */
  datatype PropertyKey = PropertyKey(propertyId: int, constructionYear: int, repairYear: int)

  /**
   * One row of `property_fact_table`. `regionId` is `None` where the left
   * join finds no region, the null the join would put in that cell.
   */
  datatype FactRow = FactRow(
    propertyId: int,
    regionId: Option<nat>,
    constructionYear: int,
    repairYear: int,
    repairCount: int,
    totalRepairCost: real)

  /**
   * The three output tables. In `propertyDim` the key is the `index` column;
   * in `regionDim` the key is `region_id` and the value is `region_name`.
   */
  datatype Tables = Tables(
    propertyDim: seq<Indexed<PropertyKey>>,
    regionDim: seq<Indexed<string>>,
    factTable: seq<FactRow>)

  function KeyOf(row: Row): PropertyKey {
    PropertyKey(row.propertyId, row.constructionYear, row.repairYear)
  }

  /** `df[['property_id', 'construction_year', 'repair_year']]` */
  function PropertyColumns(rows: seq<Row>): seq<PropertyKey> {
    seq(|rows|, i requires 0 <= i < |rows| => KeyOf(rows[i]))
  }

  /** `df[['region_name']]` */
  function RegionColumn(rows: seq<Row>): seq<string> {
    seq(|rows|, i requires 0 <= i < |rows| => rows[i].regionName)
  }

  /** `property_dim`: distinct property triples, then `reset_index()` twice. */
  function PropertyDim(rows: seq<Row>): seq<Indexed<PropertyKey>> {
    ResetIndex(DropDuplicates(PropertyColumns(rows)))
  }

  /** `region_dim`: distinct region names, index named `region_id`, then `reset_index()`. */
  function RegionDim(rows: seq<Row>): seq<Indexed<string>> {
    ResetIndex(DropDuplicates(RegionColumn(rows)))
  }

  /** The rows of `dim` whose region name is `name`, in `dim`'s order. */
  function RegionMatches(dim: seq<Indexed<string>>, name: string): (m: seq<Indexed<string>>)
    ensures forall e :: e in m <==> e in dim && e.value == name
    decreases |dim|
  {
    if dim == [] then []
    else (if dim[0].value == name then [dim[0]] else []) + RegionMatches(dim[1..], name)
  }

  /** The six columns the fact table keeps from a merged row. */
  function FactOf(row: Row, regionId: Option<nat>): FactRow {
    FactRow(row.propertyId, regionId, row.constructionYear, row.repairYear,
            row.repairCount, row.totalRepairCost)
  }

  /**
   * What a left merge on `region_name` makes of one input row: one output
   * row per matching region, or a single row with a null key if none match.
   */
  function MergeRow(row: Row, dim: seq<Indexed<string>>): seq<FactRow> {
    var m := RegionMatches(dim, row.regionName);
    if m == [] then [FactOf(row, None)]
    else seq(|m|, k requires 0 <= k < |m| => FactOf(row, Some(m[k].key)))
  }

  /** The merged rows of each input row, in input order. */
  function MergedPieces(rows: seq<Row>, dim: seq<Indexed<string>>): seq<seq<FactRow>> {
    seq(|rows|, i requires 0 <= i < |rows| => MergeRow(rows[i], dim))
  }

  /**
   * `df.merge(region_dim, on=['region_name'], how='left')` projected to the
   * fact columns: the merged rows of each input row, in input order.
   */
  function LeftJoin(rows: seq<Row>, dim: seq<Indexed<string>>): seq<FactRow> {
    Flatten(MergedPieces(rows, dim))
  }

  /** The whole transform. */
  function Transform(rows: seq<Row>): Tables {
    var regionDim := RegionDim(rows);
    Tables(PropertyDim(rows), regionDim, LeftJoin(rows, regionDim))
  }

  // ---------------------------------------------------------------------
  // Properties of the transform

  /** A name no row of `dim` carries matches nothing. */
  lemma {:induction false} RegionMatchesAbsent(dim: seq<Indexed<string>>, name: string)
    requires forall j :: 0 <= j < |dim| ==> dim[j].value != name
    ensures RegionMatches(dim, name) == []
    decreases |dim|
  {
    if dim != [] {
      RegionMatchesAbsent(dim[1..], name);
    }
  }

  /** In a key-unique dimension a present name matches exactly one row. */
  lemma {:induction false} RegionMatchesUnique(dim: seq<Indexed<string>>, k: nat)
    requires NoDuplicates(Values(dim))
    requires k < |dim|
    ensures RegionMatches(dim, dim[k].value) == [dim[k]]
    decreases |dim|
  {
    var name := dim[k].value;
    assert NoDuplicates(Values(dim[1..])) by {
      forall i, j | 0 <= i < j < |dim[1..]|
        ensures Values(dim[1..])[i] != Values(dim[1..])[j]
      {
        assert Values(dim)[i + 1] != Values(dim)[j + 1];
      }
    }
    if k == 0 {
      forall j | 0 <= j < |dim[1..]|
        ensures dim[1..][j].value != name
      {
        assert Values(dim)[0] != Values(dim)[j + 1];
      }
      RegionMatchesAbsent(dim[1..], name);
    } else {
      assert Values(dim)[0] != Values(dim)[k];
      RegionMatchesUnique(dim[1..], k - 1);
    }
  }

  /** The region key of `name` in a key-unique dimension that contains it. */
  function KeyIn(dim: seq<Indexed<string>>, name: string): (k: nat)
    requires name in Values(dim)
    ensures k < |dim| && dim[k].value == name
  {
    FirstIndex(Values(dim), name)
  }

  /** The fact row an input row should become: its columns and its region's key. */
  function Joined(row: Row, dim: seq<Indexed<string>>): FactRow
    requires row.regionName in Values(dim)
  {
    FactOf(row, Some(dim[KeyIn(dim, row.regionName)].key))
  }

  /** Against a key-unique dimension holding its region, a row merges into one row. */
  lemma MergeRowUnique(row: Row, dim: seq<Indexed<string>>)
    requires NoDuplicates(Values(dim))
    requires row.regionName in Values(dim)
    ensures MergeRow(row, dim) == [Joined(row, dim)]
  {
    RegionMatchesUnique(dim, KeyIn(dim, row.regionName));
  }

  /**
   * A left join against a key-unique dimension holding every input region
   * keeps the rows one for one and in order: row i of the result is row i of
   * the input with the key of its own region.
   */
  lemma LeftJoinOneToOne(rows: seq<Row>, dim: seq<Indexed<string>>)
    requires NoDuplicates(Values(dim))
    requires forall i :: 0 <= i < |rows| ==> rows[i].regionName in Values(dim)
    ensures |LeftJoin(rows, dim)| == |rows|
    ensures forall i :: 0 <= i < |rows| ==> LeftJoin(rows, dim)[i] == Joined(rows[i], dim)
  {
    var pieces := MergedPieces(rows, dim);
    forall i | 0 <= i < |rows|
      ensures pieces[i] == [Joined(rows[i], dim)]
    {
      MergeRowUnique(rows[i], dim);
    }
    FlattenSingletons(pieces);
  }

  /**
   * `property_dim` holds every property triple of the input exactly once, in
   * first-occurrence order, with `index` running 0, 1, ..., |property_dim|-1.
   */
  lemma PropertyDimCorrect(rows: seq<Row>)
    ensures var d := Transform(rows).propertyDim;
      && NoDuplicates(Values(d))
      && (forall i :: 0 <= i < |rows| ==> KeyOf(rows[i]) in Values(d))
      && (forall i :: 0 <= i < |d| ==> d[i].value in PropertyColumns(rows))
      && InFirstOccurrenceOrder(PropertyColumns(rows), Values(d))
      && (forall i :: 0 <= i < |d| ==> d[i].key == i)
  {
    var s := PropertyColumns(rows);
    ValuesResetIndex(DropDuplicates(s));
    DropDuplicatesOrder(s);
    assert forall i :: 0 <= i < |rows| ==> KeyOf(rows[i]) == s[i];
  }

  /**
   * `region_dim` holds every region name of the input exactly once, in
   * first-occurrence order, with `region_id` running 0, 1, ..., |region_dim|-1.
   */
  lemma RegionDimCorrect(rows: seq<Row>)
    ensures var d := Transform(rows).regionDim;
      && NoDuplicates(Values(d))
      && (forall i :: 0 <= i < |rows| ==> rows[i].regionName in Values(d))
      && (forall i :: 0 <= i < |d| ==> d[i].value in RegionColumn(rows))
      && InFirstOccurrenceOrder(RegionColumn(rows), Values(d))
      && (forall i :: 0 <= i < |d| ==> d[i].key == i)
  {
    var s := RegionColumn(rows);
    ValuesResetIndex(DropDuplicates(s));
    DropDuplicatesOrder(s);
    assert forall i :: 0 <= i < |rows| ==> rows[i].regionName == s[i];
  }

  /**
   * `property_fact_table` has one row per input row, in input order; each
   * carries the `region_id` of the `region_dim` row named by its own region
   * and copies the other five columns unchanged (the raw `property_id`, not
   * the `property_dim` index).
   */
  lemma FactTableCorrect(rows: seq<Row>)
    ensures var t := Transform(rows);
      && |t.factTable| == |rows|
      && forall i :: 0 <= i < |rows| ==>
        && rows[i].regionName in Values(t.regionDim)
        && var k := KeyIn(t.regionDim, rows[i].regionName);
        && t.regionDim[k].value == rows[i].regionName
        && t.factTable[i].regionId == Some(t.regionDim[k].key)
        && t.factTable[i].propertyId == rows[i].propertyId
        && t.factTable[i].constructionYear == rows[i].constructionYear
        && t.factTable[i].repairYear == rows[i].repairYear
        && t.factTable[i].repairCount == rows[i].repairCount
        && t.factTable[i].totalRepairCost == rows[i].totalRepairCost
  {
    var dim := RegionDim(rows);
    var facts := LeftJoin(rows, dim);
    assert Transform(rows) == Tables(PropertyDim(rows), dim, facts);
    RegionDimJoinable(rows);
    LeftJoinOneToOne(rows, dim);
    forall i | 0 <= i < |rows|
      ensures var k := KeyIn(dim, rows[i].regionName);
        && dim[k].value == rows[i].regionName
        && facts[i] == FactOf(rows[i], Some(dim[k].key))
    {
      assert facts[i] == Joined(rows[i], dim);
    }
  }

  /** `region_dim` is key-unique and holds the region of every input row. */
  lemma RegionDimJoinable(rows: seq<Row>)
    ensures NoDuplicates(Values(RegionDim(rows)))
    ensures forall i :: 0 <= i < |rows| ==> rows[i].regionName in Values(RegionDim(rows))
  {
    var names := RegionColumn(rows);
    ValuesResetIndex(DropDuplicates(names));
    assert forall i :: 0 <= i < |rows| ==> rows[i].regionName == names[i];
  }

  /** Two properties in the one region "North". */
  function NorthRows(): seq<Row> {
    [Row(1, "North", 1990, 2005, 2, 5000.0), Row(2, "North", 1985, 2010, 1, 3000.0)]
  }

  lemma NorthRegionDim()
    ensures RegionDim(NorthRows()) == [Indexed(0, "North")]
  {
    var names := RegionColumn(NorthRows());
    assert names == ["North", "North"];
    assert names[..1] == ["North"];
    assert DropDuplicates(names[..1]) == ["North"];
  }

  lemma NorthPropertyDim()
    ensures PropertyDim(NorthRows()) ==
      [Indexed(0, PropertyKey(1, 1990, 2005)), Indexed(1, PropertyKey(2, 1985, 2010))]
  {
    var keys := PropertyColumns(NorthRows());
    assert keys == [PropertyKey(1, 1990, 2005), PropertyKey(2, 1985, 2010)];
    DropDuplicatesOfDistinct(keys);
  }

  lemma NorthFactTable()
    ensures LeftJoin(NorthRows(), [Indexed(0, "North")]) ==
      [FactRow(1, Some(0), 1990, 2005, 2, 5000.0), FactRow(2, Some(0), 1985, 2010, 1, 3000.0)]
  {
    var rows := NorthRows();
    var dim := [Indexed(0, "North")];
    assert RegionMatches(dim, "North") == dim;
    var first := MergeRow(rows[0], dim);
    var second := MergeRow(rows[1], dim);
    assert first == [FactRow(1, Some(0), 1990, 2005, 2, 5000.0)];
    assert second == [FactRow(2, Some(0), 1985, 2010, 1, 3000.0)];
    var pieces := MergedPieces(rows, dim);
    assert pieces == [first, second];
    assert pieces[1..][1..] == [];
    assert Flatten(pieces) == first + Flatten(pieces[1..]);
    assert Flatten(pieces[1..]) == second + Flatten(pieces[1..][1..]);
  }

  /**
   * Two properties in the one region "North": one region row with key 0, two
   * property rows, and two fact rows that both carry region key 0.
   */
  lemma OneRegionTwoProperties()
    ensures Transform(NorthRows()) == Tables(
      [Indexed(0, PropertyKey(1, 1990, 2005)), Indexed(1, PropertyKey(2, 1985, 2010))],
      [Indexed(0, "North")],
      [FactRow(1, Some(0), 1990, 2005, 2, 5000.0), FactRow(2, Some(0), 1985, 2010, 1, 3000.0)])
  {
    NorthRegionDim();
    NorthPropertyDim();
    NorthFactTable();
  }
}
