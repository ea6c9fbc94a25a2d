/** Values shared by the series aggregator and the population list. */
module Types {

  /** A value that may be absent; `None` stands for a JavaScript `undefined`. */
  datatype Option<+T> = None | Some(value: T)

  /** One `{year, value}` entry of a prefecture's total-population series. */
  datatype Point = Point(year: nat, value: int)

  /** One element of `populationItems`: the prefecture name, its series, and the
      `prefCode` field that the delete filter reads (appended items never set it). */
  datatype Item = Item(prefName: string, prefCode: Option<string>, points: seq<Point>)

  /** One chart row: the `year` field and one column per prefecture name. */
  datatype Row = Row(year: nat, cols: map<string, int>)
}
