/** Compile-time capacities of the maze solver (code.cpp lines 11-13). */
module Limits {
  const MaxRows: int := 50
  const MaxCols: int := 50
  /** Capacity of every node-indexed array: one node per grid cell at most. */
  const MaxNodes: int := 2500
}
