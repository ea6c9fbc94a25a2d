/** The component's state: the last checkbox toggle and the population list,
    with the two effects that act on a toggle, and the chart's line keys. */
module App {
  import opened Types
  import opened Aggregator
  import opened PopulationList

  /** What the effects did after a toggle: the fetch for a checked box (and
      whether its response had a total-population series), or the delete for an
      unchecked one. */
  datatype Effect =
    | Fetched(prefCode: string, prefName: string, appended: bool)
    | DeleteRequested(prefCode: string)

  /** `renderLineChart`: one line per list item, in list order, each drawing
      the column named by its item (the line's `dataKey`). */
  function LineKeys(items: seq<Item>): (keys: seq<string>)
    ensures |keys| == |items|
    ensures forall i :: 0 <= i < |items| ==> keys[i] == items[i].prefName
  {
    seq(|items|, i requires 0 <= i < |items| => items[i].prefName)
  }

  /** Every column of every chart row is drawn by some line. */
  lemma ColumnsHaveLines(items: seq<Item>, i: int, n: string)
    requires 0 <= i < |ChartRows(items)|
    requires n in ChartRows(items)[i].cols
    ensures n in LineKeys(items)
  {
    ChartRowsColumns(items, i, n);
    var k, j :| 0 <= k < |items| && 0 <= j < |items[k].points|
      && items[k].prefName == n && items[k].points[j].year == ChartRows(items)[i].year;
    assert LineKeys(items)[k] == n;
  }

  /** Every line of an item with at least one point has data in some row. */
  lemma LinesHaveColumns(items: seq<Item>, k: int)
    requires 0 <= k < |items|
    requires items[k].points != []
    ensures exists i :: 0 <= i < |ChartRows(items)| && LineKeys(items)[k] in ChartRows(items)[i].cols
  {
    var y := items[k].points[0].year;
    ChartRowsYears(items, y);
    var i :| 0 <= i < |ChartRows(items)| && ChartRows(items)[i].year == y;
    ChartRowsColumns(items, i, items[k].prefName);
  }

  class AppState {
    /** `checkedNames`: the `name` of the last toggled checkbox, its prefecture code. */
    var checkedNames: string
    /** `checkedValues`: the `value` of the last toggled checkbox, its prefecture name. */
    var checkedValues: string
    /** `isChecked`: whether the last toggle checked the box. */
    var isChecked: bool
    /** `populationItems`: the fetched series, in the order they were appended. */
    var populationItems: seq<Item>

    /** Items only ever enter the list through `Appended`. */
    ghost predicate Valid()
      reads this
    {
      BuiltByAppend(populationItems)
    }

    /** The initial state of the hooks. */
    constructor ()
      ensures Valid()
      ensures checkedNames == "" && checkedValues == "" && !isChecked && populationItems == []
    {
      checkedNames, checkedValues, isChecked := "", "", false;
      populationItems := [];
    }

    /** The checkbox `onChange` handler: records the box's name, value and state. */
    method OnChange(name: string, value: string, checked: bool)
      modifies this
      ensures checkedNames == name && checkedValues == value && isChecked == checked
      ensures populationItems == old(populationItems)
    {
      checkedNames := name;
      checkedValues := value;
      isChecked := checked;
    }

    /** `getPopulationsData` once its request has answered with `response`: the
        total-population series is appended under `prefName`; a response
        without one throws before the list is set, so the list is unchanged. */
    method GetPopulationsData(prefCode: string, prefName: string, response: seq<Series>) returns (appended: bool)
      requires Valid()
      modifies this`populationItems
      ensures Valid()
      ensures appended <==> exists i :: 0 <= i < |response| && response[i].seriesLabel == TotalPopulationLabel
      ensures appended ==>
        exists i :: IsFirstTotal(response, i) && populationItems == Appended(old(populationItems), prefName, response[i].data)
      ensures !appended ==> populationItems == old(populationItems)
    {
      var dataResult := SelectTotal(response);
      appended := dataResult.Some?;
      if appended {
        AppendKeepsPrior(populationItems, prefName, dataResult.value);
        populationItems := Appended(populationItems, prefName, dataResult.value);
      }
    }

    /** `deletePopulationsData`: keeps the items whose code differs from `prefCode`. */
    method DeletePopulationsData(prefCode: string)
      requires Valid()
      modifies this`populationItems
      ensures Valid()
      ensures populationItems == Deleted(old(populationItems), prefCode)
      ensures populationItems == old(populationItems)
    {
      DeleteNeverRemoves(populationItems, prefCode);
      populationItems := Deleted(populationItems, prefCode);
    }

    /** The two effects that follow a toggle: when checked, fetch for the
        recorded code and name (the answer is `response`); when unchecked,
        delete by the recorded code, which leaves the list as it was. */
    method RunEffects(response: seq<Series>) returns (effect: Effect)
      requires Valid()
      modifies this`populationItems
      ensures Valid()
      ensures isChecked ==> effect == Fetched(checkedNames, checkedValues, SelectTotal(response).Some?)
      ensures !isChecked ==> effect == DeleteRequested(checkedNames)
      ensures populationItems ==
        if isChecked && SelectTotal(response).Some?
        then Appended(old(populationItems), checkedValues, SelectTotal(response).value)
        else old(populationItems)
    {
      if isChecked {
        var appended := GetPopulationsData(checkedNames, checkedValues, response);
        effect := Fetched(checkedNames, checkedValues, appended);
      } else {
        DeletePopulationsData(checkedNames);
        effect := DeleteRequested(checkedNames);
      }
    }

    /** One user toggle, run to completion: the handler, then the effects. */
    method Toggle(name: string, value: string, checked: bool, response: seq<Series>) returns (effect: Effect)
      requires Valid()
      modifies this
      ensures Valid()
      ensures checkedNames == name && checkedValues == value && isChecked == checked
      ensures effect == if checked then Fetched(name, value, SelectTotal(response).Some?) else DeleteRequested(name)
      ensures populationItems ==
        if checked && SelectTotal(response).Some?
        then Appended(old(populationItems), value, SelectTotal(response).value)
        else old(populationItems)
    {
      OnChange(name, value, checked);
      effect := RunEffects(response);
    }
  }
}
