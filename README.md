# maze, modelled in Dafny

A model of the `maze` package of pfeairheller/maze (`maze.go`), with proofs about it.
The package reads a maze from text: a header `width,height`, then one line per row.
In a row, `X` is a wall, ` ` a space and `E` an exit.
It prints the maze back and runs a breadth-first search (`FindExits`) from a start spot.
The search records on every spot its distance from the start and the spot it was reached from (its "path").
`GetPathToExit` follows those links back from an exit, and `PrintPath` overlays a path on the printed maze.

Files, one module each:

- `wrappers.dfy`: `Option`, `Result` and `Outcome`.
- `spots.dfy`: the four spot kinds, their glyphs (`String()` of `Wall`, `Space`, `Start`, `Exit`), `NewSpot`, and the per-spot `Distance`/`Path` pair (`Visit`).
- `grid.dfy`: positions, adjacency, `GetNeighbors` (`Neighbors`), and the counting facts that bound the search queue.
- `text.dfy`: what `NewMaze` reads (`ParseLine`, `ParseRows`, `ParseMaze`) and what `String` prints (`Render`), as functions on values, with their lemmas.
- `search.dfy`: the search as a theory over values.
  - A `Trace` maps each position to its distance and path.
  - Predicates state what holds while the queue runs (`Enqueued`, `Explored`, `Scanning`) and when it stops (`Searched`).
  - One lemma per step of the loop.
  - `Unvisited` and `Overwrite` state what one whole turn of the outer loop does to the queue and the trace.
  - Theorems about walks through the maze: distances are shortest walk lengths, and they are determined by the maze and the start.
  - `Backtrack`, the path read back from an exit.
- `maze.dfy`: the `Maze` class.
  - Kinds and locations are fixed once the maze is read (`spots`).
  - Distances and paths live in an `array2<Visit>` that every search overwrites in place, as the Go spots' fields are.
  - `NewMaze`, `String`, `Initialize`, `FindExits`, `GetPathToExit` and `PrintPath` are methods with loops.
  - Each is proved against the functions and predicates above.
  - The searching methods keep a ghost `Trace` in step with the array (`Holds`).

The model keeps the source's behaviour where it is surprising:

- The start is enqueued and searched from even when it is a wall.
- An exit that cannot be reached gives an empty path and no error.
- The path returned by `GetPathToExit` does not include the start. Its last spot is a neighbour of the start, and that is the spot `PrintPath` marks with its `S` (at index `x*y`, like every mark).
- Input with fewer row lines than the header's height silently gives a maze with fewer rows.
- `PrintPath` writes its marks at index `x*y` of the text (see Findings).

## Model

| member | source | states |
|---|---|---|
| Spots.NewSpot | src/github.com/pfeairheller/maze/maze.go:168-180 | a character gives a kind exactly when it is `X`, `E` or space (otherwise the "Unknow Spot type" failure); the kind is never `Start`, and its `Glyph` (the kind's `String()`) is the character read |
| Spots.GlyphRoundTrip | src/github.com/pfeairheller/maze/maze.go:233-259 | every kind `NewSpot` can produce is read back from its own `Glyph`, the character the `String()` of `Wall`, `Space` and `Exit` returns |
| Grid.Neighbors | src/github.com/pfeairheller/maze/maze.go:57-90 | a position is returned exactly when it is inside the grid and one of the eight positions around the spot |
| Grid.NeighborsOrder | src/github.com/pfeairheller/maze/maze.go:57-90 | the neighbours come in the order west, north-west, south-west, east, north-east, south-east, north, south, skipping those outside the grid |
| Grid.NeighborsDistinct | src/github.com/pfeairheller/maze/maze.go:57-90 | no neighbour is listed twice and there are at most eight |
| Grid.DistinctInBox | src/github.com/pfeairheller/maze/maze.go:115-126 | a list of distinct in-grid positions is no longer than width * height, which bounds how many spots the queue ever holds |
| Text.ParseRowsShape | src/github.com/pfeairheller/maze/maze.go:29-41 | reading succeeds exactly when every line is `width` long and names spots; then there is one row per line, `width` spots each, the spot at row r, column c is located at (c, r), and it prints as the character read |
| Text.ParseRowsFirstError | src/github.com/pfeairheller/maze/maze.go:29-41 | a failure is the one of the first rejected line, the length being checked before the characters |
| Text.ParseRowsFailureSticks | src/github.com/pfeairheller/maze/maze.go:31-33 | once a line is rejected, reading further lines does not change the outcome |
| Text.ParseMazeRows | src/github.com/pfeairheller/maze/maze.go:29 | at most `height` rows are read; exactly `height` when the input has that many lines, and as many as there are lines otherwise |
| Text.RowTextGlyphs | src/github.com/pfeairheller/maze/maze.go:49-51 | a row prints as one glyph per spot, in order |
| Text.RenderLength | src/github.com/pfeairheller/maze/maze.go:46-55 | the printed maze has rows * (width + 1) characters |
| Text.RenderAt | src/github.com/pfeairheller/maze/maze.go:46-55 | the glyph of the spot at row r, column c is at index r * (width + 1) + c, and each row ends with a newline |
| Text.RenderParsed | src/github.com/pfeairheller/maze/maze.go:46-55 | printing a maze that was read gives back the lines read, each followed by a newline |
| Mazes.NewMaze | src/github.com/pfeairheller/maze/maze.go:17-44 | fails exactly when `ParseMaze` does, with its error; otherwise a fresh maze whose spots are `ParseMaze`'s rows and whose every spot has distance 0 and no path |
| Mazes.Maze.constructor | src/github.com/pfeairheller/maze/maze.go:35-40 | the maze holds the rows read, and every spot starts with distance 0 and no path |
| Mazes.Maze.String | src/github.com/pfeairheller/maze/maze.go:46-55 | the text is `Render` of the spots |
| Mazes.Maze.Initialize | src/github.com/pfeairheller/maze/maze.go:92-98 | every spot gets distance -1 and no path |
| Mazes.Maze.Discover | src/github.com/pfeairheller/maze/maze.go:121-122 | one spot gets the given distance and path; the trace changes at that spot only |
| Mazes.Maze.FindExits | src/github.com/pfeairheller/maze/maze.go:100-129 | a start outside the maze gives the "Invalid starting spot" error and changes nothing; otherwise the search completes (`Searched`), and each spot it reaches is enqueued once, so at most width * height spots pass through the queue |
| Mazes.Maze.VisitNeighbors | src/github.com/pfeairheller/maze/maze.go:118-125 | one turn of the outer loop: the neighbours of the dequeued spot that were unvisited non-walls when the turn began (`Unvisited`) join the queue and its history in `GetNeighbors` order, they get the dequeued spot's distance + 1 and it as their path, every other spot keeps its visit (`Overwrite`); the dequeued spot then counts as explored and the queue invariants still hold |
| Mazes.Maze.ScanNeighbors | src/github.com/pfeairheller/maze/maze.go:119-125 | the inner loop over the neighbours: the queue and its history grow by exactly `Unvisited` of the neighbours, and the trace becomes the old one with those spots, and no others, set to distance + 1 and the current spot as path |
| Mazes.Maze.CheckNeighbor | src/github.com/pfeairheller/maze/maze.go:120-124 | a neighbour that is not a wall and has distance -1 gets the current distance + 1 and the current spot as its path, and joins the queue and its history, no other spot changing; any other neighbour is passed over with trace, queue and history unchanged |
| Mazes.Maze.GetPathToExit | src/github.com/pfeairheller/maze/maze.go:131-150 | the search runs first; an invalid start gives "Invalid starting spot" with nothing changed; an invalid exit then gives "Invalid exit spot"; otherwise the result is `Search.Backtrack` from the exit, the spots of the loop at lines 144-147 that follow the path links |
| Mazes.Maze.PrintPath | src/github.com/pfeairheller/maze/maze.go:152-166 | the maze text with `*` at index x * y for every spot of the path, then `S` at that index for its last spot; every index it writes is inside the text |
| Mazes.Maze.PrintPathAtSpots | src/github.com/pfeairheller/maze/maze.go:152-166 | the maze text with each path spot shown as `*`, the last one as `S`, and every other spot and newline unchanged |
| Mazes.OverlayInRange | src/github.com/pfeairheller/maze/maze.go:157 | x * y of a spot of the maze is an index of the maze text |
| Mazes.OverlayMisplaced | src/github.com/pfeairheller/maze/maze.go:157 | x * y puts every spot of row 0 or column 0 on index 0, and the mark of spot (1, 1) on the glyph of spot (1, 0) |
| Mazes.MarksAtSpots | src/github.com/pfeairheller/maze/maze.go:155-162 | marks written at the spots' own places in the text show exactly the path's spots, leaving all else unchanged |
| Search.StartSearch | src/github.com/pfeairheller/maze/maze.go:105-113 | after the reset, the start at distance 0 alone in the queue satisfies the search invariants |
| Search.DiscoverTraced | src/github.com/pfeairheller/maze/maze.go:120-122 | recording a discovery keeps every visited spot linked by its path to an adjacent spot one step closer to the start |
| Search.DiscoverOrdered | src/github.com/pfeairheller/maze/maze.go:123 | appending the discovered spot keeps the queue history sorted by distance |
| Search.DiscoverStep | src/github.com/pfeairheller/maze/maze.go:119-124 | a discovery keeps every queue invariant, with the new spot last |
| Search.ScanStart | src/github.com/pfeairheller/maze/maze.go:116-118 | dequeuing a spot starts the scan of its neighbours with the invariants in place |
| Search.ScanSkip | src/github.com/pfeairheller/maze/maze.go:120 | a wall or an already visited neighbour is already within one step of the current spot |
| Search.ScanDiscover | src/github.com/pfeairheller/maze/maze.go:120-124 | a discovered neighbour ends within one step of the current spot, the invariants kept |
| Search.UnvisitedMembers | src/github.com/pfeairheller/maze/maze.go:119-124 | the spots one pass over the neighbours discovers are exactly the listed neighbours that are not walls and have distance -1 when the pass starts |
| Search.OverwriteAt | src/github.com/pfeairheller/maze/maze.go:121-122 | setting the discovered spots changes exactly those spots, to the given visit, and keeps every other spot's visit |
| Search.UnvisitedRecorded | src/github.com/pfeairheller/maze/maze.go:119-124 | since no neighbour is listed twice, testing a neighbour against the current trace is testing it against the trace the pass started from, so each step of the inner loop extends the queue, its history and the trace by `Unvisited` of one more neighbour |
| Search.ScanOne | src/github.com/pfeairheller/maze/maze.go:119-124 | one step of the inner loop keeps the scan invariant, stated over the trace the loop started from |
| Search.ScanThrough | src/github.com/pfeairheller/maze/maze.go:119-125 | every prefix of the inner loop keeps the scan invariant |
| Search.ScanAll | src/github.com/pfeairheller/maze/maze.go:116-125 | after all neighbours of the dequeued spot are scanned, the scan invariant holds for the state `Overwrite` and `Unvisited` describe |
| Search.VisitKeepsQueue | src/github.com/pfeairheller/maze/maze.go:115-126 | a whole turn of the outer loop, as `VisitNeighbors` states it, keeps the queue invariants and makes the dequeued spot explored |
| Search.ScanFinish | src/github.com/pfeairheller/maze/maze.go:119-125 | when all neighbours are scanned, the dequeued spot is explored and the queue stays within one step of its front |
| Search.SearchComplete | src/github.com/pfeairheller/maze/maze.go:115-126 | an empty queue means every visited spot's non-wall neighbours are visited, at most one step further |
| Search.WallsUnvisited | src/github.com/pfeairheller/maze/maze.go:120 | after a search, a wall other than the start keeps distance -1 and no path |
| Search.WalkBound | src/github.com/pfeairheller/maze/maze.go:115-126 | no walk from the start through non-wall spots is shorter than the distance recorded at its end |
| Search.PredWalk | src/github.com/pfeairheller/maze/maze.go:121-122 | following the path links back from a visited spot gives a walk from the start with one step per unit of distance |
| Search.ShortestWalk | src/github.com/pfeairheller/maze/maze.go:100-129 | a spot is visited exactly when a walk from the start reaches it, and its distance is the length of a shortest such walk |
| Search.DistancesDetermined | src/github.com/pfeairheller/maze/maze.go:132 | two completed searches from the same start agree on every distance, so the search `GetPathToExit` runs again changes none |
| Search.BacktrackShape | src/github.com/pfeairheller/maze/maze.go:141-149 | the path back from an exit is empty exactly when the exit is the start or was not reached; otherwise it has one spot per unit of the exit's distance, exit first, each spot's path the next, the last one's path the start |
| Search.BacktrackWalk | src/github.com/pfeairheller/maze/maze.go:144-147 | the path back, reversed and led by the start, is the walk of path links to the exit |
| Search.PathIsShortest | src/github.com/pfeairheller/maze/maze.go:131-150 | the path back from a reached exit, reversed after the start, is a walk to the exit that no walk is shorter than |

## Left out

- The command-line program `runner/runner.go` is not part of this model.
- Output is left out. The `fmt.Println` calls of `FindExits` and `PrintPath` are omitted, and `PrintPath` returns its text instead of printing it.
- Reading the header with `bufio.Scanner` and `fmt.Sscanf` is left out. `NewMaze` takes the width, the height and the row lines as parameters.
- `log.Fatalln` ends the Go process. The model instead returns a `Failure` holding the fatal message's condition (`LineTooShort`, `UnknownSpotType`).
- Characters are Dafny `char`s. Reading lines as runes and converting them with `byte(char)` is not modelled, and neither are multi-byte characters.
- Spots are Go interface values over pointers. The model uses a `Kind` datatype and identifies a spot by its position. `GetPathToExit` returns the positions of the spots on the path, not the spots.
- Negative coordinates are excluded by preconditions on `FindExits` and `GetPathToExit`; Go panics on them when indexing.
- Mazes.Maze.FindExits: requires all `height` rows to be present (`Complete`), and so does Mazes.Maze.GetPathToExit, which runs it. A maze read from short input has fewer rows. Go panics on such a maze when the start lies in a missing row or when the search dequeues a spot of the last row present, since `GetNeighbors` then reads the row below it. When the search never dequeues a spot of that last row, Go finishes without a panic; the requirement excludes those inputs too.
- Mazes.Maze.FindExits: does not say which of several equally near spots becomes a spot's path (Go takes the first one dequeued). The contract states only that the path is an adjacent spot one step closer to the start.
- Mazes.Maze.PrintPath: requires a non-empty path of spots of the maze. Go panics on an empty path, since it reads the last element, and on an index past the end of the text.

## Findings

| source | as written | input that shows it | evidently intended | confidence | as-written member | corrected member |
|---|---|---|---|---|---|---|
| src/github.com/pfeairheller/maze/maze.go:157 | the mark of the spot at (x, y) is written at index x * y of the maze text | any maze at least 3 wide with at least 2 rows, and the path [(1, 1), (2, 1)]: the `*` for (1, 1) lands on index 1, the glyph of spot (1, 0), and spot (1, 1) keeps its own glyph; every spot of row 0 or column 0 is marked on index 0 | the spot's own place in the text, y * (width + 1) + x | not executed; high | Mazes.OverlayMisplaced | Mazes.Maze.PrintPathAtSpots |
