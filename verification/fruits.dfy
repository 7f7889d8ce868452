/** The fruit record, the grouping option and the two field accessors that
    every component of the fruit explorer shares. */
module Fruits {

  /** The usual Some/None datatype, standing for a nullable value. */
  datatype Option<+T> = None | Some(value: T)

  /** A catalogue fruit, reduced to the fields the components read.
      `calories` is `None` when the record has no `nutritions.calories`. */
  datatype Fruit = Fruit(
    id: int,
    name: string,
    family: string,
    order: string,
    genus: string,
    calories: Option<int>)

  /** The three taxonomic fields a fruit can be grouped by. */
  datatype Axis = Family | Order | Genus

  /** The selector's choice: `Ungrouped` is the option spelled "None",
      `By(a)` the options "Family", "Order" and "Genus". */
  datatype GroupBy = Ungrouped | By(axis: Axis)

  /** The group label of `f`: the value of the field whose name is the
      lower-cased option name. */
  function Label(f: Fruit, a: Axis): (l: string)
  {
    match a
    case Family => f.family
    case Order => f.order
    case Genus => f.genus
  }

  /** `fruit?.nutritions?.calories || 0`: a missing (or zero) value reads as 0. */
  function CaloriesOrZero(f: Fruit): (c: int)
  {
    match f.calories
    case Some(c) => c
    case None => 0
  }
}
