/** Rows as they travel from InsertRows to the log and the partitions. */
module Rows {
  import opened Words
  import opened GorillaFormat

  /** The canonical name made of a metric and its labels. */
  type Name = seq<uint8>

  datatype Row = Row(name: Name, point: Point)
}
