/** The population list: picking the total-population series out of a fetched
    response, appending it to the list, and the delete filter. */
module PopulationList {
  import opened Types
  import opened Aggregator

  /** The label of the total-population series ("total population"). */
  const TotalPopulationLabel: string := "総人口"

  /** One labelled series of a population response (`data.result.data[i]`). */
  datatype Series = Series(seriesLabel: string, data: seq<Point>)

  /** `i` is the first entry of the response labelled as the total population. */
  ghost predicate IsFirstTotal(response: seq<Series>, i: int)
  {
    && 0 <= i < |response|
    && response[i].seriesLabel == TotalPopulationLabel
    && forall j :: 0 <= j < i ==> response[j].seriesLabel != TotalPopulationLabel
  }

  /** The label lookup: the series of the first
      matching entry; with no match, `[0]` is undefined, reading `.data` throws,
      and the result is `None`. */
  function SelectTotal(response: seq<Series>): (r: Option<seq<Point>>)
    ensures r.Some? <==> exists i :: 0 <= i < |response| && response[i].seriesLabel == TotalPopulationLabel
    ensures r.Some? ==> exists i :: IsFirstTotal(response, i) && r.value == response[i].data
  {
    if response == [] then None
    else if response[0].seriesLabel == TotalPopulationLabel then Some(response[0].data)
    else
      var r := SelectTotal(response[1..]);
      assert r.Some? ==> exists i :: IsFirstTotal(response[1..], i) && r.value == response[1..][i].data;
      assert forall i :: IsFirstTotal(response[1..], i) ==> IsFirstTotal(response, i + 1);
      r
  }

  /** `[...prevPopulationItems, { prefName, dataResult }]`: the new item carries no
      `prefCode`. */
  function Appended(items: seq<Item>, prefName: string, data: seq<Point>): seq<Item>
  {
    items + [Item(prefName, None, data)]
  }

  /** `prevPopulationItems.filter((v) => v.prefCode !== prefCode)`: an item
      without a `prefCode` never equals the string code and is always kept. */
  function Deleted(items: seq<Item>, prefCode: string): (r: seq<Item>)
    ensures |r| <= |items|
    ensures forall x :: x in r <==> x in items && x.prefCode != Some(prefCode)
  {
    if items == [] then []
    else (if items[0].prefCode != Some(prefCode) then [items[0]] else []) + Deleted(items[1..], prefCode)
  }

  /** How many items of the list are named `name`. */
  function CountNamed(items: seq<Item>, name: string): nat
  {
    if items == [] then 0
    else CountNamed(items[..|items| - 1], name) + (if items[|items| - 1].prefName == name then 1 else 0)
  }

  /** Every item of the list came from `Appended`, so none carries a `prefCode`. */
  predicate BuiltByAppend(items: seq<Item>)
  {
    forall i :: 0 <= i < |items| ==> items[i].prefCode == None
  }

  // ---------------------------------------------------------------------------
  // Append

  /** Appending keeps every earlier item in place and adds the new series last,
      named as requested and without a code. */
  lemma AppendKeepsPrior(items: seq<Item>, prefName: string, data: seq<Point>)
    ensures |Appended(items, prefName, data)| == |items| + 1
    ensures Appended(items, prefName, data)[..|items|] == items
    ensures Appended(items, prefName, data)[|items|] == Item(prefName, None, data)
    ensures BuiltByAppend(items) ==> BuiltByAppend(Appended(items, prefName, data))
  {
  }

  /** There is no de-duplication: appending `name` raises its count by one, so
      checking the same prefecture twice leaves two entries for it. */
  lemma {:induction false} AppendCounts(items: seq<Item>, prefName: string, data: seq<Point>, name: string)
    ensures CountNamed(Appended(items, prefName, data), name) == CountNamed(items, name) + (if name == prefName then 1 else 0)
  {
    assert Appended(items, prefName, data)[..|items|] == items;
  }

  /** Checking the same prefecture twice gives two entries for it. */
  lemma CheckTwiceTwoEntries(items: seq<Item>, prefName: string, first: seq<Point>, second: seq<Point>)
    ensures CountNamed(Appended(Appended(items, prefName, first), prefName, second), prefName)
         == CountNamed(items, prefName) + 2
  {
    AppendCounts(items, prefName, first, prefName);
    AppendCounts(Appended(items, prefName, first), prefName, second, prefName);
  }

  // ---------------------------------------------------------------------------
  // Delete

  /** The filter keeps the relative order: deleting from a concatenation is the
      concatenation of the deletions. */
  lemma {:induction false} DeletedConcat(a: seq<Item>, b: seq<Item>, prefCode: string)
    ensures Deleted(a + b, prefCode) == Deleted(a, prefCode) + Deleted(b, prefCode)
  {
    if a != [] {
      assert (a + b)[1..] == a[1..] + b;
      DeletedConcat(a[1..], b, prefCode);
    } else {
      assert a + b == b;
    }
  }

  /** Delete returns the list unchanged exactly when no item carries the code. */
  lemma {:induction false} DeletedUnchanged(items: seq<Item>, prefCode: string)
    ensures Deleted(items, prefCode) == items <==>
      forall i :: 0 <= i < |items| ==> items[i].prefCode != Some(prefCode)
  {
    if items != [] {
      DeletedUnchanged(items[1..], prefCode);
      if items[0].prefCode == Some(prefCode) {
        assert |Deleted(items, prefCode)| < |items|;
      } else {
        assert forall i :: 1 <= i < |items| ==> items[1..][i - 1] == items[i];
      }
    }
  }

  /** As written, delete never removes anything from a list built by append. */
  lemma DeleteNeverRemoves(items: seq<Item>, prefCode: string)
    requires BuiltByAppend(items)
    ensures Deleted(items, prefCode) == items
  {
    DeletedUnchanged(items, prefCode);
  }

  /** Unchecking right after checking leaves the appended entry in the list:
      the list does not return to what it was before the check. */
  lemma UncheckAfterCheckKeepsEntry(items: seq<Item>, prefCode: string, prefName: string, data: seq<Point>)
    requires BuiltByAppend(items)
    ensures Deleted(Appended(items, prefName, data), prefCode) == Appended(items, prefName, data)
    ensures Deleted(Appended(items, prefName, data), prefCode) != items
  {
    AppendKeepsPrior(items, prefName, data);
    DeleteNeverRemoves(Appended(items, prefName, data), prefCode);
  }

  /** The chart after unchecking Tokyo (code "13") from Tokyo and Osaka, as
      written: both rows stay. */
  lemma RemovalExampleAsWritten()
    ensures ChartRows(Deleted(Appended(Appended([], "Tokyo", [Point(1980, 100)]), "Osaka", [Point(1990, 50)]), "13"))
         == [Row(1980, map["Tokyo" := 100]), Row(1990, map["Osaka" := 50])]
  {
    var items := Appended(Appended([], "Tokyo", [Point(1980, 100)]), "Osaka", [Point(1990, 50)]);
    DeleteNeverRemoves(items, "13");
    TwoSeriesExample();
  }

  // ---------------------------------------------------------------------------
  // The evidently intended append

  /** Append that records the prefecture code, so that delete can find the item. */
  function AppendedWithCode(items: seq<Item>, prefCode: string, prefName: string, data: seq<Point>): seq<Item>
  {
    items + [Item(prefName, Some(prefCode), data)]
  }

  /** With the code recorded, unchecking right after checking restores the list,
      provided no earlier item carries the same code. */
  lemma UncheckUndoesCheck(items: seq<Item>, prefCode: string, prefName: string, data: seq<Point>)
    requires forall i :: 0 <= i < |items| ==> items[i].prefCode != Some(prefCode)
    ensures Deleted(AppendedWithCode(items, prefCode, prefName, data), prefCode) == items
  {
    DeletedConcat(items, [Item(prefName, Some(prefCode), data)], prefCode);
    DeletedUnchanged(items, prefCode);
  }

  /** The chart after unchecking Tokyo (code "13") from Tokyo and Osaka, with
      the code recorded: only Osaka's row is left. */
  lemma RemovalExampleCorrected()
    ensures ChartRows(Deleted(AppendedWithCode(AppendedWithCode([], "13", "Tokyo", [Point(1980, 100)]), "27", "Osaka", [Point(1990, 50)]), "13"))
         == [Row(1990, map["Osaka" := 50])]
  {
    var osaka := Item("Osaka", Some("27"), [Point(1990, 50)]);
    assert Deleted(AppendedWithCode(AppendedWithCode([], "13", "Tokyo", [Point(1980, 100)]), "27", "Osaka", [Point(1990, 50)]), "13")
        == [osaka];
    SingleSeriesRows(osaka);
  }
}
