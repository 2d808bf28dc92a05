# WorldMC Ice Highway Map Editor: a verified model of the map canvas

The editor is a Swing window for editing a transit dataset. The dataset holds
stations and lines grouped by category, and each line is made of named
branches with station ids and a polyline of vertices. This project models the
window's map panel (`MapPanel`) and the window helpers it works with:

- **Picking.** `findAt` looks for a station within 15 px of the mouse, and
  otherwise for a line segment within 5 px. `hitTestVertex` looks for a staged
  vertex within 8 px.
- **The path-edit staging buffer.**
  - `highlightLine` and `resetCurrentPath` fill it with fresh copies of the
    highlighted line's branches.
  - `insertVertexAt`, `deleteSelectedVertex`, `updateSelectedVertexPosition`
    and the orthogonal snap of `mouseDragged` edit it.
  - `commitPathChanges` writes it back to the dataset.
- **The viewport.** Panning by a mouse drag, zooming by the wheel, and the
  screen/world maps.
- **The window's data helpers.** `roundTwoDecimals`; the station branch of
  `applyChanges` (field assignments, memberships, and lazy linking into
  branches); the new-station id rule of `addNewStation`; and `deleteSelected`
  for stations and for lines, including the category a line delete leaves
  empty.

## Files

- `wrappers.dfy`: `Option` and the first-true search every "first match"
  loop uses.
- `geometry.dfy`: two-decimal rounding, the viewport maps, squared distances,
  and the point-to-segment distance.
- `transit.dfy`:
  - the dataset: hash maps become key-unique sequences in iteration order;
  - the lookups `data.lines.get(c).get(l)` and `branches.get(name)`;
  - the well-formedness invariant.
- `staging.dfy`: the staging buffer. Staged vertices carry ids, so
  identity-based `List.remove` and `indexOf` can be modelled. It also holds
  copy, commit, delete, move and insert.
- `snap.dfy`: the L-shaped snap of a dragged vertex.
- `picker.dfy`: `findAt`, `hitTestVertex`, and where `insertVertexAt` inserts.
- `canvas.dfy`: the `MapPanel` class, whose methods update its fields, plus
  the module-level loops of its operations.
- `editor.dfy`: the window helpers, and the `HighwayEditor` class over the
  panel's dataset.

Paths below are relative to the repository root.

## Model

| member | source | states |
|---|---|---|
| Geometry.Round2 | src/main/java/editor/HighwayEditor.java:516-518 | the result is a whole number of hundredths within (d - 0.005, d + 0.005] |
| Geometry.Round2OfHundredths | src/main/java/editor/HighwayEditor.java:516-518 | rounding a value that already has two decimals returns it |
| Geometry.Round2Idempotent | src/main/java/editor/HighwayEditor.java:516-518 | rounding twice is rounding once |
| Geometry.Round2Unique | src/main/java/editor/HighwayEditor.java:516-518 | the two facts of Round2's contract determine the result |
| Geometry.RoundPoint | src/main/java/editor/HighwayEditor.java:593-594 | both coordinates are rounded to two decimals |
| Geometry.ToScreen | src/main/java/editor/HighwayEditor.java:675-676 | the world-to-screen map `(w - off) * zoom + c` of the painter and the pickers; inverted by ToWorld (Geometry.ScreenWorldRoundTrip) |
| Geometry.ToWorld | src/main/java/editor/HighwayEditor.java:563 | the screen-to-world map `(s - c) / zoom + off` of a drag and an insert; inverted by ToScreen (Geometry.ScreenWorldRoundTrip) |
| Geometry.ScreenWorldRoundTrip | src/main/java/editor/HighwayEditor.java:675-678 | for non-zero zoom, world-to-screen and screen-to-world are inverse to each other |
| Geometry.Pan | src/main/java/editor/HighwayEditor.java:603 | the pan of an empty-space drag: each offset moves back by the mouse delta over zoom; Geometry.PanFollowsPointer says what that does on screen |
| Geometry.PanFollowsPointer | src/main/java/editor/HighwayEditor.java:603 | after a pan by (dx, dz) px, every world point is drawn exactly (dx, dz) px further on |
| Geometry.ZoomFactor | src/main/java/editor/HighwayEditor.java:607 | the factor is positive, and above 1 exactly when the wheel turns up |
| Geometry.ZoomKeepsCenter | src/main/java/editor/HighwayEditor.java:607 | zoom stays positive, and the world point at the canvas centre stays put |
| Geometry.Clamp01 | src/main/java/editor/HighwayEditor.java:683 | the result is in [0, 1]; t itself inside it, 0 below it, 1 above it |
| Geometry.SegParam | src/main/java/editor/HighwayEditor.java:682-683 | the projection parameter lies in [0, 1] |
| Geometry.SegDistSq | src/main/java/editor/HighwayEditor.java:677 | `Line2D.ptSegDist` squared, as the distance to the clamped projection; Geometry.SegDistSqIsLeast and SegDistSqBounds state its meaning |
| Geometry.SegDistSqIsLeast | src/main/java/editor/HighwayEditor.java:677 | the segment distance that `ptSegDist` tests is the least squared distance to any point of the segment |
| Geometry.ProjectOnSegment | src/main/java/editor/HighwayEditor.java:677 | the nearest point lies on the segment; a zero-length segment is its end point |
| Geometry.SegDistSqBounds | src/main/java/editor/HighwayEditor.java:677 | the segment distance is non-negative and at most the distance to either end |
| Geometry.DegenerateSegment | src/main/java/editor/HighwayEditor.java:682-683 | on a zero-length segment every parameter and the projection give the end point |
| Geometry.InsertionPointAsWritten | src/main/java/editor/HighwayEditor.java:681-685 | the inserted vertex as the code computes it, (0, 0) on a zero-length segment; compared with the intended vertex by InsertionAsWrittenAgrees and InsertionAsWrittenDegenerate |
| Geometry.InsertionPoint | src/main/java/editor/HighwayEditor.java:678-685 | the intended inserted vertex, the rounded nearest point of the segment; its meaning is Geometry.InsertionPointIsRoundedNearest |
| Geometry.InsertionPointIsRoundedNearest | src/main/java/editor/HighwayEditor.java:678-685 | the inserted vertex rounds a point of the segment that no point of the segment beats for nearness to the click |
| Geometry.InsertionAsWrittenAgrees | src/main/java/editor/HighwayEditor.java:679-685 | on every segment of non-zero length the code's computation equals the intended vertex |
| Geometry.InsertionAsWrittenDegenerate | src/main/java/editor/HighwayEditor.java:681-685 | on the zero-length segment (5, 5)-(5, 5) the code inserts (0, 0), while the intended vertex is (5, 5) |
| Transit.CategoryIndex | src/main/java/editor/HighwayEditor.java:620 | the first category with that name; None exactly when no category has it |
| Transit.LineIndex | src/main/java/editor/HighwayEditor.java:620 | the first line with that name; None exactly when no line has it |
| Transit.BranchIndex | src/main/java/editor/HighwayEditor.java:635 | the first branch with that name; None exactly when no branch has it |
| Transit.FindLine | src/main/java/editor/HighwayEditor.java:620 | a line is found exactly when its category and the line exist, and it has the key's name |
| Transit.WithLineFound | src/main/java/editor/HighwayEditor.java:635-636 | after replacing a line, it is found at its key and every other key finds what it found before |
| Staging.StageBranch | src/main/java/editor/HighwayEditor.java:621-624 | a copy with the branch's name and coordinates, whose vertices get the ids next, next + 1, ... |
| Staging.StageAll | src/main/java/editor/HighwayEditor.java:619-625 | the cleared staging map filled branch by branch in the line's order; Staging.StageAllIsFreshCopy states that it is a fresh copy |
| Staging.StageAllIsFreshCopy | src/main/java/editor/HighwayEditor.java:621-625 | the buffer copies every branch in order, its ids are new and unique, and its names are distinct when the branches' names are |
| Staging.StageAllGood | src/main/java/editor/HighwayEditor.java:621-625 | a fresh copy satisfies the buffer invariant with the advanced id counter |
| Staging.CommitAll | src/main/java/editor/HighwayEditor.java:634-637 | the commit loop, one staged entry after another; Staging.CommitAllSpec states its result branch by branch |
| Staging.Committed | src/main/java/editor/HighwayEditor.java:636-637 | a branch keeps its name and stations; it takes the staged list of its name when there is one |
| Staging.CommitAllSpec | src/main/java/editor/HighwayEditor.java:634-637 | every branch with a staged list of its name takes that list's coordinates; every other branch, and all names, station lists and order, stay |
| Staging.CommitAllAt | src/main/java/editor/HighwayEditor.java:634-637 | branch j after committing the entries one by one is that branch committed against the whole buffer |
| Staging.ReplaceVertsAt | src/main/java/editor/HighwayEditor.java:635-636 | one commit step changes only the branch with the entry's name |
| Staging.CommitLine | src/main/java/editor/HighwayEditor.java:632-639 | commitPathChanges on the dataset, no change when the line is missing; Staging.CommitLineSpec states its result |
| Staging.CommitLineSpec | src/main/java/editor/HighwayEditor.java:632-639 | the commit keeps the dataset well formed and the stations, commits the branches of the highlighted line, and changes no other line |
| Staging.CommitCopyIsIdentity | src/main/java/editor/HighwayEditor.java:632-639 | committing an unedited copy changes nothing |
| Staging.FirstWithId | src/main/java/editor/HighwayEditor.java:661 | the identity search of `List.remove`: the first position holding the vertex, None when it is absent |
| Staging.RemoveFirst | src/main/java/editor/HighwayEditor.java:661 | `List.remove(Object)` by identity; Staging.DeleteFromLongSpec states its effect |
| Staging.DeleteFromLong | src/main/java/editor/HighwayEditor.java:659-661 | the delete over every staged list longer than 2; Staging.DeleteFromLongSpec and DeleteFromLongGood state its result |
| Staging.DeleteFromLongSpec | src/main/java/editor/HighwayEditor.java:659-665 | lists of at most 2 vertices and lists without the vertex stay; a longer list holding it loses exactly that vertex, the others keeping their order, so no list drops below 2 and none holds it afterwards; names are kept |
| Staging.RemoveFirstUnique | src/main/java/editor/HighwayEditor.java:661 | when ids are unique, removing the first occurrence removes every occurrence |
| Staging.DeleteFromLongGood | src/main/java/editor/HighwayEditor.java:659-665 | deleting keeps the buffer invariant |
| Staging.MoveVertex | src/main/java/editor/HighwayEditor.java:644 | the in-place update of the vertex with that id; Staging.MoveVertexSpec states its result |
| Staging.MoveVertexSpec | src/main/java/editor/HighwayEditor.java:644 | only the vertex with that id changes, and it takes the new point; names, lengths and ids stay; the invariant is kept |
| Staging.InsertAt | src/main/java/editor/HighwayEditor.java:686 | `List.add(i, v)`: v is at index i, and the elements before and after keep their order |
| Staging.InsertGood | src/main/java/editor/HighwayEditor.java:686 | inserting a vertex with the next id keeps the buffer invariant with the id counter advanced |
| Staging.Inserted | src/main/java/editor/HighwayEditor.java:686 | the buffer with the vertex added to one list; Staging.InsertedShape and InsertGood state its result |
| Staging.InsertedShape | src/main/java/editor/HighwayEditor.java:686 | an insert into list k changes list k alone, and keeps its name and its other vertices in order |
| Snap.SnapBothNeighbours | src/main/java/editor/HighwayEditor.java:576-583 | with two neighbours the vertex goes to corner A exactly when A is strictly nearer (or the corners coincide), is never farther than either corner, and lines up with both neighbours |
| Snap.SnapOneNeighbour | src/main/java/editor/HighwayEditor.java:584-588 | with one neighbour, the axis nearer to it is locked to it and the other axis keeps the cursor value |
| Snap.SnapNoNeighbour | src/main/java/editor/HighwayEditor.java:564-592 | a vertex with no neighbour keeps the cursor position |
| Snap.SnapExample | src/main/java/editor/HighwayEditor.java:576-583 | from (1, 9) between (0, 0) and (10, 10) the vertex snaps to (0, 10) |
| Snap.ListHolding | src/main/java/editor/HighwayEditor.java:565-567 | the first staged list holding the vertex; None exactly when no list holds it |
| Snap.DragPosition | src/main/java/editor/HighwayEditor.java:562-594 | the dragged vertex always lands on the two-decimal grid |
| Snap.DragKeepsAlignment | src/main/java/editor/HighwayEditor.java:576-594 | when the neighbours are on the grid, rounding keeps the snapped vertex axis-aligned with them |
| Snap.DragWithoutSnap | src/main/java/editor/HighwayEditor.java:562-594 | without snapping, or when no list holds the vertex, the vertex goes to the rounded cursor position |
| Snap.SnapRaw | src/main/java/editor/HighwayEditor.java:576-588 | the L-shaped snap before rounding; Snap.SnapBothNeighbours, SnapOneNeighbour and SnapNoNeighbour state it case by case |
| Snap.LockNearerAxis | src/main/java/editor/HighwayEditor.java:584-588 | the one-neighbour snap; its meaning is in Snap.SnapOneNeighbour |
| Picker.FirstStationNear | src/main/java/editor/HighwayEditor.java:698 | the first station within 15 px; None exactly when there is none |
| Picker.FirstSegmentNear | src/main/java/editor/HighwayEditor.java:699-703 | the first segment within 5 px; None exactly when there is none |
| Picker.FirstLineTouched | src/main/java/editor/HighwayEditor.java:699-703 | the first line of a category with a segment within reach |
| Picker.FirstCategoryTouched | src/main/java/editor/HighwayEditor.java:699-703 | the first category with such a line |
| Picker.LineAt | src/main/java/editor/HighwayEditor.java:699-704 | the segment search finds no line exactly when no category has a segment within reach |
| Picker.FindAt | src/main/java/editor/HighwayEditor.java:695-705 | nothing without data; a station hit names a station within 15 px. Picker.FindAtStationsFirst, FindAtLines and FindAtResult state the rest |
| Picker.FindAtNoData | src/main/java/editor/HighwayEditor.java:696 | without data nothing is found |
| Picker.FindAtStationsFirst | src/main/java/editor/HighwayEditor.java:698 | when a station is within 15 px, findAt returns the first such station, whatever segments are near |
| Picker.FindAtLines | src/main/java/editor/HighwayEditor.java:699-704 | with no station near, findAt returns the first line in category-then-line order with a segment within 5 px, and nothing when there is none |
| Picker.FindAtResult | src/main/java/editor/HighwayEditor.java:695-705 | a station hit is an index into the list, and occurs exactly when some station is near |
| Picker.FirstVertexNear | src/main/java/editor/HighwayEditor.java:669 | the first vertex of a list within 8 px; None exactly when there is none |
| Picker.FirstListWithVertexNear | src/main/java/editor/HighwayEditor.java:669 | the first staged list with a vertex within reach |
| Picker.VertexAt | src/main/java/editor/HighwayEditor.java:667-671 | hitTestVertex as the id of the vertex found; Picker.VertexAtSpec states its result |
| Picker.VertexAtSpec | src/main/java/editor/HighwayEditor.java:667-671 | a vertex is found exactly when some staged vertex is within 8 px, and it is the first in list-then-index order |
| Picker.FirstListWithSegmentNear | src/main/java/editor/HighwayEditor.java:674 | the first staged list with a segment within 5 px |
| Picker.InsertTarget | src/main/java/editor/HighwayEditor.java:674-677 | the target segment is a segment of the list it names |
| Picker.InsertTargetAt | src/main/java/editor/HighwayEditor.java:674-677 | the first touched list and its first near segment are the target |
| Picker.InsertTargetIsFirstNear | src/main/java/editor/HighwayEditor.java:674-677 | the target segment is within 5 px, no list before it and no segment before it in its list is, and there is no target exactly when no staged segment is within reach |
| Picker.InsertClick | src/main/java/editor/HighwayEditor.java:672-690 | insertVertexAt on the buffer and the id counter; Picker.InsertClickSpec and InsertClickGood state its result |
| Picker.InsertClickSpec | src/main/java/editor/HighwayEditor.java:672-690 | a click on a segment adds exactly one vertex, right after the segment's first end, and changes nothing else; a click off every segment changes nothing |
| Picker.InsertClickGood | src/main/java/editor/HighwayEditor.java:686 | an insert click keeps the buffer invariant |
| Canvas.MapPanel.constructor | src/main/java/editor/HighwayEditor.java:527-534 | the initial state: zoom 0.05, origin, orthogonal on, nothing highlighted, an empty buffer |
| Canvas.MapPanel.SetData | src/main/java/editor/HighwayEditor.java:615 | shows the dataset as a new generation, centred on its first station if it has one; the highlight is kept but belongs to the old generation; nothing else changes |
| Canvas.MapPanel.HighlightStation | src/main/java/editor/HighwayEditor.java:616 | highlights the station, held by the current dataset generation and its id, and drops the line highlight; centres on it when asked |
| Canvas.MapPanel.HighlightLine | src/main/java/editor/HighwayEditor.java:617-631 | highlights the line and fills the emptied buffer with fresh copies of its branches; centres on the first staged vertex when asked; without such a line the buffer is left empty |
| Canvas.MapPanel.CommitPathChanges | src/main/java/editor/HighwayEditor.java:632-639 | the dataset becomes the commit of the buffer into the highlighted line, and stays well formed |
| Canvas.MapPanel.ClearHighlight | src/main/java/editor/HighwayEditor.java:640 | nothing is highlighted, the buffer is empty, no vertex is selected, path editing is off |
| Canvas.MapPanel.SetPathEditing | src/main/java/editor/HighwayEditor.java:641 | sets path editing |
| Canvas.MapPanel.UpdateSelectedVertexPosition | src/main/java/editor/HighwayEditor.java:644 | the selected vertex takes the coordinates; with no selection nothing changes |
| Canvas.MapPanel.ResetCurrentPath | src/main/java/editor/HighwayEditor.java:646-657 | after confirmation, the buffer becomes a fresh copy of the highlighted line; when the category exists but the line does not, it is left empty; without a key, confirmation, data or the category, it is unchanged |
| Canvas.MapPanel.DeleteSelectedVertex | src/main/java/editor/HighwayEditor.java:659-665 | the selected vertex leaves every list longer than 2, and the selection is cleared |
| Canvas.MapPanel.InsertVertexAt | src/main/java/editor/HighwayEditor.java:672-690 | the buffer and the id counter become the insert click's result, and the invariant is kept |
| Canvas.MapPanel.MousePressed | src/main/java/editor/HighwayEditor.java:540-560 | remembers the point. In path editing: a right click off the selected vertex inserts, and a left click on a vertex selects it. Otherwise it reports findAt's hit |
| Canvas.MapPanel.MouseDragged | src/main/java/editor/HighwayEditor.java:561-604 | moves the dragged vertex to its snapped position; else, on the station tab, when the station findAt returns is the highlighted one of the current dataset, moves it to the rounded cursor and keeps the last point; else pans so the map follows the pointer |
| Canvas.MapPanel.MouseReleased | src/main/java/editor/HighwayEditor.java:606 | no vertex is dragged |
| Canvas.MapPanel.MouseWheelMoved | src/main/java/editor/HighwayEditor.java:607 | the zoom is multiplied by the wheel factor and stays positive |
| Canvas.InsertVertex | src/main/java/editor/HighwayEditor.java:672-690 | the loop's result is the insert click of the specification |
| Canvas.FindInsertTarget | src/main/java/editor/HighwayEditor.java:674 | the outer search loop finds the insert target |
| Canvas.FindSegment | src/main/java/editor/HighwayEditor.java:674-677 | the inner search loop finds the first segment within 5 px |
| Canvas.StageLine | src/main/java/editor/HighwayEditor.java:619-625 | the emptied buffer, filled with the line's branches when the line exists, satisfying the buffer invariant |
| Canvas.StageCopies | src/main/java/editor/HighwayEditor.java:621-625 | the copy loop produces the fresh copy and advances the id counter by the vertex count |
| Canvas.CommitBranches | src/main/java/editor/HighwayEditor.java:634-637 | the write-back loop produces the committed branches |
| Editor.EditFields | src/main/java/editor/HighwayEditor.java:363-371 | the station keeps its id and takes the form's name |
| Editor.EditFieldsSpec | src/main/java/editor/HighwayEditor.java:363-371 | the form goes through exactly when both coordinates parse and an elevator's heights parse; then the stored values are the rounded, normalised form values; a failed coordinate keeps every later field |
| Editor.Memberships | src/main/java/editor/HighwayEditor.java:372-377 | the new membership map built row by row; Editor.MembershipsLastRowWins and MembershipCategories state its content |
| Editor.LinkBranch | src/main/java/editor/HighwayEditor.java:381-383 | the station id and point added to a branch when missing; Editor.LinkBranchSpec states its result |
| Editor.LinkLine | src/main/java/editor/HighwayEditor.java:380-383 | computeIfAbsent of the branch, then LinkBranch; Editor.LinkLineSpec and LinkLineOther state its result |
| Editor.LinkRows | src/main/java/editor/HighwayEditor.java:373-386 | the linking of all rows in table order; Editor.LinkRowsLinks, LinkRowsNoop, LinkRowsIdempotent and LinkRowsFrame state its result |
| Editor.MembershipsLastRowWins | src/main/java/editor/HighwayEditor.java:372-377 | the station serves a line exactly when an applied row names it, and the last such row's membership is kept |
| Editor.MembershipCategories | src/main/java/editor/HighwayEditor.java:376-377 | a category is recorded exactly when an applied row names it |
| Editor.LinkBranchSpec | src/main/java/editor/HighwayEditor.java:381-383 | the id and the point are in the branch, each is appended only when missing and never doubled, and linking twice is linking once |
| Editor.LinkLineSpec | src/main/java/editor/HighwayEditor.java:380-383 | the branch of that name exists afterwards with the id and point; a missing one is appended; other branches and fields stay; names stay distinct |
| Editor.LinkLineOther | src/main/java/editor/HighwayEditor.java:380 | linking one branch does not move or change a branch of another name |
| Editor.LinkRowLinks | src/main/java/editor/HighwayEditor.java:376-383 | after a row, the line it names, if that line exists, holds the station in the row's branch |
| Editor.LinkRowsLinks | src/main/java/editor/HighwayEditor.java:373-386 | after all rows, every row naming an existing line is linked |
| Editor.LinkRowsNoop | src/main/java/editor/HighwayEditor.java:373-386 | rows that are all linked already change nothing |
| Editor.LinkRowsIdempotent | src/main/java/editor/HighwayEditor.java:373-386 | applying the same rows twice is applying them once |
| Editor.LinkRowsFrame | src/main/java/editor/HighwayEditor.java:373-386 | the stations and well-formedness are kept, and a line no applied row names is untouched |
| Editor.LinkRowsIgnoresStations | src/main/java/editor/HighwayEditor.java:373-386 | the linking depends on the lines only |
| Editor.StationEdit | src/main/java/editor/HighwayEditor.java:360-386 | the number of stations is kept |
| Editor.StationEditSpec | src/main/java/editor/HighwayEditor.java:360-386 | only the edited station changes among the stations; on success it has the rows' memberships and is linked into every named line; unnamed lines stay; the dataset stays well formed |
| Editor.EditFieldsAgain | src/main/java/editor/HighwayEditor.java:363-371 | writing the same form onto its own result gives the same fields |
| Editor.StationEditIdempotent | src/main/java/editor/HighwayEditor.java:360-386 | applying the same form twice is applying it once |
| Editor.ApplyRows | src/main/java/editor/HighwayEditor.java:372-386 | the row loop builds exactly the memberships and the linking of the specification |
| Editor.MaxId | src/main/java/editor/HighwayEditor.java:401 | the largest id, attained by some station; None exactly for no stations |
| Editor.NewStationId | src/main/java/editor/HighwayEditor.java:401 | the new id exceeds every id, is 1 for no stations, and otherwise is the largest id plus one |
| Editor.AddStation | src/main/java/editor/HighwayEditor.java:401-402 | "New Station" at the given point, with a fresh id and empty fields, is appended; the rest stays |
| Editor.AddStationKeepsIdsDistinct | src/main/java/editor/HighwayEditor.java:401 | distinct station ids stay distinct |
| Editor.DeleteStation | src/main/java/editor/HighwayEditor.java:427 | the station at that index is removed, and the others keep their order |
| Editor.WithoutLine | src/main/java/editor/HighwayEditor.java:431 | removing never lengthens the list |
| Editor.DeleteLine | src/main/java/editor/HighwayEditor.java:429-434 | the line removed, and its category with it when that leaves it empty; Editor.DeleteLineSpec states its result |
| Editor.CategoryIndexRemoved | src/main/java/editor/HighwayEditor.java:432 | removing another category shifts the search result by the removed slot |
| Editor.LineIndexRemoved | src/main/java/editor/HighwayEditor.java:431 | removing another line shifts the search result by the removed slot |
| Editor.WithoutLineSpec | src/main/java/editor/HighwayEditor.java:431 | after removal no line has the name and names stay distinct; an empty result means every line had the name |
| Editor.WithoutLineOther | src/main/java/editor/HighwayEditor.java:431 | removing a line does not change what another name finds |
| Editor.WithoutCategorySpec | src/main/java/editor/HighwayEditor.java:432 | removing a category keeps the others distinct and in order, and its name is gone |
| Editor.DeleteLineKeepsCategory | src/main/java/editor/HighwayEditor.java:431-432 | when lines remain, the line is gone, other keys find what they found, and the category stays non-empty |
| Editor.DeleteLineKeepsWellFormed | src/main/java/editor/HighwayEditor.java:431-432 | when lines remain, the dataset stays well formed |
| Editor.DeleteLineDropsCategory | src/main/java/editor/HighwayEditor.java:431-432 | when no line remains, the category is gone and other keys find what they found |
| Editor.DroppedCategoryOther | src/main/java/editor/HighwayEditor.java:432 | removing a category does not change the lookups of other categories |
| Editor.DeleteLineDropsWellFormed | src/main/java/editor/HighwayEditor.java:432 | removing the emptied category keeps the dataset well formed |
| Editor.DeleteLineSpec | src/main/java/editor/HighwayEditor.java:429-434 | after deleting: the line is gone, every other line is found as before, the stations stay, the dataset stays well formed, and no empty category is left behind |
| Editor.HighwayEditor.ApplyStationChanges | src/main/java/editor/HighwayEditor.java:357-386 | on the station tab, with data and a selection, the dataset becomes the station edit; otherwise nothing changes |
| Editor.HighwayEditor.AddNewStation | src/main/java/editor/HighwayEditor.java:399-404 | with data, the new station is added at the view centre |
| Editor.HighwayEditor.DeleteSelectedStation | src/main/java/editor/HighwayEditor.java:425-427 | the selected station is removed when confirmed; otherwise nothing changes |
| Editor.HighwayEditor.DeleteSelectedLine | src/main/java/editor/HighwayEditor.java:429-434 | the selected line is removed when confirmed; otherwise nothing changes |
| Editor.HighwayEditor.UpdateSelectedVertex | src/main/java/editor/HighwayEditor.java:318-324 | both typed coordinates are rounded and given to the selected vertex; when either fails to parse nothing changes |

## Left out

- Painting, Swing widgets, listeners and callbacks, `repaint`, `setSaved`,
  `refreshLists` and message dialogs. They are display and I/O. A
  confirmation dialog becomes a `confirmed` parameter, and the canvas size
  becomes the `w`, `h` parameters.
- Text parsing of the form fields. A field that does not parse is an absent
  value (`Option`, `IntField.Malformed`). The selected station is an index,
  and the selected line is a `LineKey`. The `"category: line"` string and its
  `split(": ")` are not modelled; a key is the pair it stands for.
- Floating point. Coordinates are real numbers, and `Math.hypot(..) < r` is
  a squared distance compared with `r * r`. The model defines
  `Line2D.ptSegDist` by what it computes, the distance to the clamped
  projection, not by the JDK's algorithm, which is outside the repository.
  NaN appears only in the finding below.
- Picker.InsertClick / Canvas.MapPanel.InsertVertexAt: on a zero-length
  segment they insert the segment's end point (Geometry.InsertionPoint), the
  corrected behaviour of the finding below. The code inserts (0, 0) there;
  that behaviour is Geometry.InsertionPointAsWritten.
- Hash-map iteration order. Categories, lines and branches are sequences in
  an unspecified but fixed iteration order. A branch created by
  `computeIfAbsent` is modelled as appended at the end. The staging map is a
  separate `HashMap` (line 534), whose `values()` order (lines 627, 661, 669,
  674) need not follow the line's branch order. The model puts the staged
  lists in the line's branch order (Staging.StageAll), so which list
  highlightLine pans to, and which vertex or segment hitTestVertex and
  insertVertexAt find first when several are in reach, follow that order.
- Object identity and aliasing. The staged `Double[]` vertices are ids in the
  buffer. After `commitPathChanges`, the persisted branch shares its arrays
  with the buffer, so later in-place edits of staged vertices also reach the
  dataset. The model copies coordinates at commit time and does not capture
  that sharing.
- The canvas and the window share one dataset object; here it is the panel's
  `data` field, which the window's methods update. The highlighted station is
  held by the generation of the dataset it was made in (`setData` starts a new
  one) and its id, rather than by object identity. A highlight from an
  earlier dataset then matches none of the new one's stations, as an old
  object would; within one dataset the pair and identity agree while
  station ids are distinct, which adding a station keeps
  (Editor.AddStationKeepsIdsDistinct).
- Exceptions on missing data. A `NullPointerException` in `commitPathChanges`,
  `resetCurrentPath`, `highlightLine` or `deleteSelected`, thrown when there
  is no data or no such key, is modelled as stopping the operation. Every
  change made before it is kept: for `highlightLine` that is the emptied
  buffer, and for `resetCurrentPath` with a missing line in an existing
  category too.
- `deleteVertexAt`, `filterLists`, `addNewLine`, the line-tab branch of
  `applyChanges`, file loading and saving, and `mouseMoved` are outside the
  modelled core.
- The `draggedVertex` field is never set by any handler, so the snap branch
  of `mouseDragged` is not reached. It is modelled for when it is
  (Snap.DragPosition, Canvas.MapPanel.MouseDragged).
- Editor.AddStation: the new id is the largest id plus one on unbounded
  integers. Java's `int` wrap-around at the largest id is not modelled.
- Editor.DeleteStation: it does not remove the station's id from the
  branches that list it, and neither does the source.
- A membership's map number is kept as the cell's text. A `null` cell and an
  empty one are not told apart.
- `src/main/java/models` (`HighwaysData`, `Station`, `LineData`) is not part
  of this model. Its field types are taken from their use in
  `HighwayEditor.java`; station coordinates are taken to be `double`.

## Findings

| source | as written | input that shows it | evidently intended | confidence | as-written member | corrected member |
|---|---|---|---|---|---|---|
| src/main/java/editor/HighwayEditor.java:682-686 | `insertVertexAt` divides by the squared segment length `dx*dx + dz*dz`. On a segment of length 0 that is 0/0 = NaN, which `Math.max`/`Math.min` pass through and `Math.round` turns into 0, so the new vertex is (0, 0) | the polyline (5, 5), (5, 5), (10, 5), with a right click near (5, 5) | insert the point of the segment nearest to the click, which on a zero-length segment is its end point (5, 5) | not executed | Geometry.InsertionAsWrittenDegenerate | Geometry.InsertionPointIsRoundedNearest |
