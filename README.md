# SankeyDiagram core, modelled in Dafny

This project models the logic behind the interactive Sankey diagram of
`my_sankey.js`. It covers three parts:

- **Table partitioning (`parseCSV`).** The input is an edge table whose rows
  have the fields `source`, `target`, `level`, `colorS` and `colorT`. Rows
  with level -1 are category rows; every other row is a flow link. From the
  table the program builds three last-write-wins lookups (node to colour,
  node to category, node to level). It then partitions the table by level:
  each level gets its links in input order, and its nodes as the distinct
  endpoints in first-occurrence order, each annotated from the lookups. The
  aggregate view of every flow link is stored under the sentinel key -1.
- **Hover highlighting (`highlightRelatedNodes`, `resetNodeStyles`).** A
  depth-first search runs from the hovered node along the drawn level's
  links: first towards children, then towards parents. Both passes share
  one `visited` set. Every rectangle and path outside the related nodes and
  links is then dimmed.
- **Drag handling (`dragstarted`, `dragged`, `dragended`).** Dragging a node
  moves it vertically, clamped to the drawing, and keeps its height; the
  `active` class is toggled when a drag starts and ends.

Files:

- `wrappers.dfy`: an `Option` type and map lookup (`Map.get`, which gives
  `undefined` for a missing key).
- `seqs.dfy`: first-occurrence deduplication (`Array.from(new Set(...))`)
  and order-preserving filtering (`Array.prototype.filter`).
- `table.dfy`: the rows and the three lookup maps, as folds over the rows.
- `partition.dfy`: the per-level partition, the methods that build it with
  loops, and their properties.
- `closure.dfy`: the search, with walks in the link graph as its
  specification.
- `chart.dfy`: one drawn level as a class holding the `inactive`/`active`
  flags, with the hover and drag handlers as methods.

Where the code behaves differently from what a reader of the page might
expect, the model follows the code:

- **Category rows overwrite colours.** A category row writes its `colorS`
  and `colorT` into the colour map like any other row, blank cells as the
  empty string. A node named by a later category row therefore ends up with
  that row's colour, often `""` (`Partition.ExampleRecordA`).
- **A node's level is its last flow row's level.** The level recorded for a
  node is the level of the last flow row that mentions it. A node drawn at
  one level can carry another (`Partition.ExampleLevelOneNodes`).
- **The hovered node is usually dimmed.** It is related only when a cycle
  leads back to it (`Closure.FocusRelatedIffOnCycle`).
- **The shared visited set can hide ancestors.** Because both passes share
  one `visited` set, the parent pass can miss ancestors of a node that lies
  on a cycle (`Closure.SharedVisitedMissesAncestor`). Off cycles, every
  ancestor is found (`Closure.AncestorsAreRelatedOffCycle`).

## Model

| member | source | states |
|---|---|---|
| Wrappers.Get | my_sankey.js:296 | A lookup is present exactly when the key is in the map, and then holds the mapped value (`Map.get`, `undefined` otherwise). |
| Seqs.IndexOf | my_sankey.js:289 | The returned position holds the element, and no earlier position does. |
| Seqs.Distinct | my_sankey.js:289 | `Array.from(new Set(s))`: no repeated element, the same elements as the input, and no longer than it. |
| Seqs.DistinctSnoc | my_sankey.js:289 | Appending an element to the input appends it to the result exactly when it was not already there. |
| Seqs.DistinctOfNoDuplicates | my_sankey.js:289 | Deduplicating a sequence with no repeated element leaves it unchanged. |
| Seqs.IndexOfInPrefix | my_sankey.js:289 | An element's first position is unchanged when more elements are appended after it. |
| Seqs.IndexOfPastPrefix | my_sankey.js:289 | An element that is not in a prefix is first found after that prefix. |
| Seqs.DistinctFirstOccurrenceOrder | my_sankey.js:289 | The result lists elements in the order of their first occurrence in the input. |
| Seqs.Filter | my_sankey.js:294 | `filter`: each element occurs as often as in the input when kept, and not at all otherwise. |
| Seqs.FilterKeepsAll | my_sankey.js:294 | A filter that every element passes returns the whole sequence. |
| Seqs.FilterDropsAll | my_sankey.js:294 | A filter that no element passes returns the empty sequence. |
| Seqs.FilterConcat | my_sankey.js:294 | Filtering distributes over concatenation, so kept elements keep their relative input order. |
| Seqs.FilterNarrow | my_sankey.js:294-300 | Filtering by a weaker condition and then by a stronger one equals filtering by the stronger one alone. |
| Table.IsFlow | my_sankey.js:278 | A row is a flow link exactly when its level is not the sentinel -1; its partner is `Partition.FlowAndCategoryRowsSplitTable`. |
| Table.Endpoints | my_sankey.js:296 | `flatMap(ll => [ll.source, ll.target])`: position 2k holds row k's source and position 2k+1 its target, and a name occurs exactly when some row mentions it. |
| Table.ColorWritten | my_sankey.js:270-271 | The colour a row leaves for a name it mentions is what writing the source's colour and then the target's colour leaves, so the target's colour wins. |
| Table.ColorMap | my_sankey.js:267-272 | The colour map has a key exactly for the names some row mentions. |
| Table.CategoryMap | my_sankey.js:274-281 | The category map has a key exactly for the targets of category (level -1) rows. |
| Table.LevelMap | my_sankey.js:275-287 | The level map has a key exactly for the endpoints of flow rows, and never records the sentinel level. |
| Table.ColorMapLastWriteWins | my_sankey.js:267-272 | A name's colour comes from the last row mentioning it: `colorT` when it is that row's target, `colorS` otherwise. |
| Table.CategoryMapLastWriteWins | my_sankey.js:274-281 | A name's category is the source of the last category row targeting it. |
| Table.LevelMapLastWriteWins | my_sankey.js:277-287 | A name's level is the level of the last flow row mentioning it. |
| Partition.Annotate | my_sankey.js:296 | The record made for a name carries that name, and each of its level, category and colour is present exactly when the lookup has the name, holding the looked-up value. |
| Partition.NodesOf | my_sankey.js:296 | A level's node list has the distinct endpoint names of its links in first-occurrence order, each annotated with its level, category and colour lookups. |
| Partition.LevelColumn | my_sankey.js:289 | `links.flatMap(l => l.level)` has one entry per row, holding that row's level. |
| Partition.Levels | my_sankey.js:289 | The distinct levels: no level twice, and a level is listed exactly when some row has it. |
| Partition.LevelLinks | my_sankey.js:294 | The rows of one level: a row is listed exactly when it is in the table at that level. |
| Partition.LevelNodes | my_sankey.js:296 | The nodes of one level: no name twice, and a record is listed exactly when it is the annotated record of a name mentioned by a row at that level. |
| Partition.AggregateLinks | my_sankey.js:300 | The aggregate rows: a row is listed exactly when it is a flow row of the table. |
| Partition.AggregateNodes | my_sankey.js:302 | The aggregate nodes: no name twice, and a record is listed exactly when it is the annotated record of a name mentioned by a flow row. |
| Partition.BuildNodeColor | my_sankey.js:267-272 | The `forEach` loop fills the colour map, and the result equals the last-write-wins fold over the rows. |
| Partition.BuildNodeParentAndLevels | my_sankey.js:274-287 | The second `forEach` loop fills the category and level maps, and the results equal their folds over the rows. |
| Partition.BuildLevelEntries | my_sankey.js:293-298 | The `levels.forEach` loop gives each listed level, and no other key, that level's rows and the records of their distinct endpoints. |
| Partition.ParseCsv | my_sankey.js:263-302 | Levels are listed in first-occurrence order. The keys are those levels plus -1. Each level key holds that level's rows in input order and their annotated distinct endpoints. Key -1 holds the flow rows and their nodes. |
| Partition.InNodesOf | my_sankey.js:296 | A node record is listed exactly when it is the annotated record of a name mentioned by one of the links. |
| Partition.InNodesOfAll | my_sankey.js:296 | The membership characterisation of `InNodesOf`, for all records at once. |
| Partition.NodesOfSpec | my_sankey.js:296 | A level's node list has no repeated name, lists exactly the names its links mention, follows first-occurrence order, and annotates every record from the lookups. |
| Partition.FlowAndCategoryRowsSplitTable | my_sankey.js:294-300 | Every row of the table is either in the aggregate or among the rows of level -1, exactly once. |
| Partition.LevelLinksWithinAggregate | my_sankey.js:294-300 | For a flow level, filtering the aggregate rows by that level gives exactly that level's rows. |
| Partition.FlowRowPlacement | my_sankey.js:289-300 | Every flow row's level is listed, and the row appears both under its level and in the aggregate. |
| Partition.AggregateNodesAreUnion | my_sankey.js:296-302 | A node record is in the aggregate exactly when it is listed at some flow level. |
| Partition.FlowNodesHaveLevelAndColor | my_sankey.js:296-302 | Every node of a flow level or of the aggregate has a flow level and a colour; only its category may be missing. |
| Partition.ExampleLevels | my_sankey.js:289 | For the three-row example table, the levels are 1, 2, -1 in that order. |
| Partition.ExampleLevelOneLinks | my_sankey.js:294 | For the example, level 1 holds its first row only. |
| Partition.ExampleAggregateLinks | my_sankey.js:300 | For the example, the aggregate holds both flow rows and not the category row. |
| Partition.ExampleRecordA | my_sankey.js:267-287 | For the example, A gets level 1, category X and the category row's blank colour, which is the last colour written for A. |
| Partition.ExampleRecordB | my_sankey.js:267-287 | For the example, B gets level 2 (that of its last flow row), no category, and colour green. |
| Partition.ExampleLevelOneNames | my_sankey.js:296 | For the example, level 1 lists the names A then B. |
| Partition.ExampleLevelOneNodes | my_sankey.js:296 | For the example, level 1 lists the full records of A and B, B carrying level 2. |
| Closure.ReachedIsEnd | my_sankey.js:162-186 | Every node reached by the search is an end of some link. |
| Closure.OneStep | my_sankey.js:164-169 | Following a single link not leading into the avoided set is a walk. |
| Closure.Prepend | my_sankey.js:167-169 | A walk from a link's far end extends to a walk from that link's near end. |
| Closure.Append | my_sankey.js:164-169 | A walk extends by one more link leaving its last node. |
| Closure.Concat | my_sankey.js:162-186 | Two walks joined end to start make a walk. |
| Closure.LastLink | my_sankey.js:164-169 | A node reached by a walk is the far end of a link whose near end is the start node or is itself reached. |
| Closure.AvoidedIsUnreached | my_sankey.js:167-169 | No search reaches a node it must avoid: a visited node is never entered again. |
| Closure.NotASuccessor | my_sankey.js:164-166 | A node is no successor of a set when every link leading to it leaves a node outside the set. |
| Closure.ReachesReversed | my_sankey.js:162-186 | `b` is a descendant of `a` exactly when `a` is an ancestor of `b`: the parent pass searches the reversed graph. |
| Closure.ClosedUnderLinks | my_sankey.js:162-186 | A set closed under the links leaving its nodes contains everything reachable from it. |
| Closure.LinksLeavingUnion | my_sankey.js:163-166 | The links leaving a union of nodes are the union of the links leaving each part. |
| Closure.LinksLeavingPrefix | my_sankey.js:163 | The links leaving a node among the first i+1 are those among the first i, plus link i when it leaves the node. |
| Closure.SplitNewlyVisited | my_sankey.js:167-169 | A visited node is either newly visited or was already in the visited set. |
| Closure.RelatedAfterExpansion | my_sankey.js:164-170 | After one link's recursive expansion, the related sets are the links leaving the expanded nodes and their far ends. |
| Closure.Expand | my_sankey.js:162-186 | `findAllRelatedChild` / `findAllRelatedParent`. The newly visited nodes are exactly those reachable without entering an already-visited node. The related sets gain exactly the links leaving every expanded node and their far ends. |
| Closure.VisitLink | my_sankey.js:163-185 | The `forEach` callback extends the loop invariant by one link: link i is related when it leaves the node, and its unvisited far end is visited and expanded. |
| Closure.Highlight | my_sankey.js:157-189 | The related nodes and links after both passes equal the specification: everything leaving the focus or its descendants, plus everything entering the focus or an ancestor the child pass left unvisited. |
| Closure.ReachedIsSuccessor | my_sankey.js:162-186 | A node reachable from the start is the far end of a link leaving the start or another reachable node. |
| Closure.RelatedNodesAreReachable | my_sankey.js:162-189 | Soundness: every related node is a descendant or an ancestor of the focus. |
| Closure.RelatedLinksJoinRelatedNodes | my_sankey.js:164-179 | Every related link joins related nodes, or a related node and the focus. |
| Closure.DescendantsAreRelated | my_sankey.js:159-188 | Forward completeness: every descendant of the focus is related. |
| Closure.AncestorWalkAvoidsDescendants | my_sankey.js:175-189 | When the focus lies on no cycle, a walk to an ancestor never enters a node the child pass visited. |
| Closure.AncestorsAreRelatedOffCycle | my_sankey.js:175-189 | Backward completeness off cycles: every ancestor of a focus on no cycle is related. |
| Closure.FocusRelatedIffOnCycle | my_sankey.js:157-189 | The focus itself is related exactly when a cycle leads back to it. |
| Closure.SharedVisitedMissesAncestor | my_sankey.js:159-183 | With links Z->A, A->B, B->A and focus B, Z is an ancestor of B but is not related: the shared visited set stops the parent pass at A. |
| SankeyChart.ClampTop | my_sankey.js:136 | The new top edge is never negative. A node that fits stays inside the drawing, and one taller than the drawing sits at 0. Among the admissible positions, it is the one nearest the mouse. |
| SankeyChart.PositionedNode.constructor | my_sankey.js:32-35 | A laid-out node holds the given name and extent. |
| SankeyChart.Chart.constructor | my_sankey.js:44-60 | For nodes with distinct names, as every level's node list has, a new chart has one fresh flag per rectangle and path, none set. |
| SankeyChart.Chart.HighlightRelatedNodes | my_sankey.js:156-202 | After a hover, a rectangle is dimmed exactly when its node is not related to the focus, and a path exactly when its link is not related. The result depends only on the links and the focus, so repeated hovers agree. |
| SankeyChart.Chart.DimAllExcept | my_sankey.js:192-201 | Dimming everything and then undimming the kept nodes and links leaves dimmed exactly what is not kept. |
| SankeyChart.Chart.ResetNodeStyles | my_sankey.js:206-209 | After mouse-out, no rectangle and no path is dimmed. |
| SankeyChart.Chart.DragStarted | my_sankey.js:130-132 | The dragged rectangle becomes active; the others keep their flag. |
| SankeyChart.Chart.Dragged | my_sankey.js:134-141 | The node keeps its height, its top edge moves to the clamped mouse position, its horizontal extent is unchanged, and no other node moves. |
| SankeyChart.Chart.DragEnded | my_sankey.js:152-154 | The dragged rectangle stops being active; the others keep their flag. |

## Left out

- SVG and DOM construction, styles, titles, gradients and the commented-out labels (my_sankey.js:6-128): rendering with no state to model.
- The `d3.sankey` layout, `sankey.update` and `d3.sankeyLinkHorizontal` (my_sankey.js:22-35, 106, 144-149) are foreign library geometry. Node positions are inputs to `SankeyChart.PositionedNode`, and after a drag the links are not re-laid out.
- `raise()` (my_sankey.js:131, 197, 201) only reorders SVG elements for painting, so the model has no element order.
- `d3.csvParse` (my_sankey.js:265): rows come in already parsed, with the level as an integer.
- Level keys: the source keeps levels as CSV strings and keys the per-level maps by those strings (my_sankey.js:294-296), but stores the aggregate under the number -1 (my_sankey.js:300-302), a separate key. The model uses one integer key, so the aggregate overwrites the per-level entry of the category rows under -1. It also identifies level strings that spell the same number, such as "1" and "01". In the source the drawn level is looked up with the selector's value, a string (my_sankey.js:33-34, 324-327), so selecting -1 draws the category rows stored under the string key, and the aggregate under the number -1 is never shown; in the model the key -1 holds the aggregate.
- Partition.ParseCsv: the entry of the category rows under the string key "-1", which the source keeps beside the aggregate, is not modelled, because the model has a single -1 key.
- `fetch`, `FileReader`, `alert` and the `isFirstRun`/`isUpdated` flags (my_sankey.js:214-261) are asynchronous I/O glue.
- Populating the level selector and its default `levels.sort().at(-1)` (my_sankey.js:310-322) are DOM work with a string sort.
- Colour-mode and link-colour dispatch (my_sankey.js:55-58, 107-113) relies on `d3.scaleOrdinal`.
- `generateUniqueId` (my_sankey.js:75-77) uses `Math.random`.
- SankeyChart.Chart.Dragged: positions are reals, not IEEE doubles, so floating-point rounding of the shift is not modelled.
- Closure: link objects are identified by their position in the level's link list, and nodes by name (the layout's node id), so two links with the same ends stay distinct, as they are in the source.
