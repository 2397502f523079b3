/** The generator table: `MazeGeneratorAlgorithm` (src/logic/maze-generator/index.ts)
    and the lookup `mazeGenerators[generator]` that `generate` performs. */
module Generators {
  import opened Utils
  import opened MazeGrid
  import Dfs
  import Prim
  import RecursiveDivision

  /** `'dfs' | 'prim' | 'recursive-division'`. */
  datatype Algorithm = DfsAlgorithm | PrimAlgorithm | RecursiveDivisionAlgorithm

  /** Runs the chosen generator. Every generator yields the common maze shape; the
      depth-first and Prim generators yield perfect mazes. */
  method Run(algorithm: Algorithm, width: int, height: int) returns (maze: Grid<CellState>)
    requires ValidSize(width, height)
    ensures MazeShape(maze, width, height)
    ensures algorithm != RecursiveDivisionAlgorithm ==> PerfectMaze(maze, width, height)
  {
    match algorithm
    case DfsAlgorithm =>
      maze := Dfs.DfsGenerator(width, height);
    case PrimAlgorithm =>
      maze := Prim.PrimGenerator(width, height);
    case RecursiveDivisionAlgorithm =>
      maze := RecursiveDivision.RecursiveDivisionGenerator(width, height);
  }
}
