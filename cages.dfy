/**
 * The cage descriptor and the four cage colours of src/data/cage.rs.
 *
 * A cage carries no list of cells: membership is decided only by comparing
 * `index` while scanning the board's cage grid (see module Grid).  The derived
 * `PartialEq` of the Rust struct is Dafny's structural datatype equality, so two
 * cages are equal exactly when both `index` and `sum` are equal.
 */
module Cages {

  /** `index: usize` identifies the cage; `sum: i32` is its target (0 or less means "no target"). */
  datatype Cage = Cage(index: nat, sum: int)

  /** The derived `Default` of the Rust struct: index 0, sum 0. */
  const DefaultCage: Cage := Cage(0, 0)

  /** The four colours, in declaration order. */
  datatype CageColor = Yellow | Red | Green | Blue
}
