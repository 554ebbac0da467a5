# Obsidian Canvas MindMap — a Dafny model of its geometry and graph engine

The plugin turns an Obsidian canvas into a mind map. A canvas is a list of nodes (id, position, size,
text or file content, colour, whether it is being edited), a list of edges (from a node's side to a
node's side) and a selection. On that data the plugin:

- adds nodes and edges by replacing the canvas data whole (`addNode`, `addEdge`, `createEdge`);
- builds a forest out of the edges along an axis (`buildTrees`, `buildTree`, `shouldAddChild`);
- places new children, siblings, floating nodes and heading children at fixed offsets from the
  selected node, linking a parent's right side to a child's left side;
- re-stacks a parent's column of children after a sibling is created or a child is deleted,
  each node placed under the one moved before it;
- moves the selection to the next node in a direction (`navigate`);
- handles the edit keys, the Delete key and the propagation of a node's colour to its outgoing edges.

Modules, one per file:

- `Model` (model.dfy): nodes, edges, snapshots and the lookups the plugin makes on them.
- `Host` (canvas.dfy): the host `Canvas` as a class whose methods change its node list, edge list
  and selection in place.
- `Sorting` (sorting.dfy): the host's stable sort by a coordinate.
- `Layout` (layout.dfy): the closed form of a re-stacked column.
- `Placement` (placement.dfy): the position arithmetic.
- `Navigation` (navigation.dfy): the candidate choice of `navigate`.
- `RandomId` (random_id.dfy): the shape of `random`.
- `TreeBuilder` (tree_builder.dfy): `buildTrees`, with one shared `TreeNode` object per node id.
- `Commands` and `Handlers` (commands.dfy, handlers.dfy): each command as a function from
  snapshot to snapshot, with the lemmas about it.
- `Utils` and `Plugin` (utils.dfy, plugin.dfy): the operations of `src/utils.ts` and the handlers of
  `src/index.ts` as methods on a `Canvas`, each proved to leave the canvas as its function says.

Coordinates are exact `real`s. Ids that the source draws at random are parameters. So are the
viewport nodes, the heading list of a file, and whether the host has canvas data.

## Model

| member | source | states |
|---|---|---|
| Model.IndexOf | src/utils.ts:362 | the position of the node with the id, and -1 exactly when there is none |
| Model.NodeOf | src/utils.ts:362 | the looked-up node is on the canvas and carries the id |
| Model.EdgesForNode | src/utils.ts:421-423 | an edge is returned iff it starts or ends at the node |
| Model.IncomingEdges | src/utils.ts:421-424 | an edge is returned iff it ends at the node, whatever its side |
| Model.ChildEdges | src/utils.ts:382-384 | an edge is returned iff it leaves the parent and enters its target's left side |
| Model.EdgesInto | src/utils.ts:400-406 | an edge is kept iff its target is among the given targets |
| Model.TargetNodes | src/utils.ts:437 | one node per edge, the node the edge points at |
| Model.MoveNode | src/utils.ts:452 | the node with the id gets the new x and y; every other node and every other field stay |
| Model.SetEditing | src/index.ts:260 | only the node with the id enters editing; nothing else changes |
| Model.SetNodeColor | src/index.ts:412 | only the node with the id takes the colour; nothing else changes |
| Host.KeepNodes | src/index.ts:307 | a node survives iff it was on the canvas and is not being deleted |
| Host.KeepEdges | src/index.ts:307 | an edge survives iff neither of its ends is being deleted |
| Host.HostDelete | src/index.ts:294 | the host's Delete removes the selected nodes and every edge touching them, clears the selection, and keeps the canvas well formed |
| Host.Canvas.ImportData | src/utils.ts:109-112 | the node and edge lists are replaced whole; the selection stays |
| Host.Canvas.MoveTo | src/utils.ts:452 | the node moves to (x, y); edges and selection stay |
| Host.Canvas.SelectOnly | src/utils.ts:335 | the node becomes the only selected node; nodes and edges stay |
| Host.Canvas.DeselectAll | src/utils.ts:361 | nothing stays selected; nodes and edges stay |
| Host.Canvas.StartEditing | src/index.ts:260 | the node enters editing; edges and selection stay |
| Host.Canvas.SetColor | src/index.ts:412 | the node takes the colour; edges and selection stay |
| Host.Canvas.SetEdgeColor | src/index.ts:415 | the k-th edge takes the colour; no other edge or node changes |
| Host.Canvas.DeleteSelection | src/index.ts:307 | the canvas becomes what the host's Delete makes of it |
| Placement.ChildX | src/utils.ts:351 | a child sits 200 to the right of its parent's right edge |
| Placement.SiblingY | src/utils.ts:427 | a new sibling's top is 110 below the selected node's vertical midpoint |
| Placement.FloatingPosition | src/utils.ts:307-318 | per direction, the new node is 50 left or right, or 100 above or below, of the selected node; the other coordinate stays; the two boxes do not overlap |
| Placement.HeadingY | src/index.ts:74-90 | the y of heading child i of k: the group top plus i rows of 0.6 h + 20 |
| Placement.SiblingColumnTop | src/utils.ts:448-450 | the column's half height is centred on the parent's vertical midpoint |
| Placement.DeleteColumnTop | src/index.ts:341-344 | the column's half height is centred on the parent's bottom edge, not its midpoint |
| Placement.HeadingGroupCentred | src/index.ts:74-80 | the k heading rows together are centred on the parent's vertical midpoint |
| Sorting.Insert | src/utils.ts:443 | one insertion step: the length grows by one, the elements are a permutation plus the new one, the head is the smaller key |
| Sorting.InsertSorted | src/utils.ts:443 | inserting into a sorted list keeps it sorted |
| Sorting.SortBy | src/utils.ts:443 | the result is a permutation of the input, sorted by the coordinate |
| Sorting.SortByLastIsMax | src/utils.ts:409-410 | the last of the sorted list is one of the inputs and has the largest key |
| Layout.Restacked | src/utils.ts:447-453 | the canvas after the column is stacked: each node is placed by its last entry in the column and nothing is added or dropped |
| Layout.ColumnEntry | src/utils.ts:447-453 | entry j is at the column's x and at y0 plus the heights-and-gaps of the entries above it; its other fields stay |
| Layout.ColumnStacked | src/utils.ts:448-452 | each entry starts 20 below the bottom of the entry before it, at its moved position |
| Layout.RestackedOnlyMoves | src/utils.ts:452 | stacking changes only the x and y of nodes |
| Layout.OutsideColumnUnchanged | src/utils.ts:447-453 | a node not in the column is left exactly as it was |
| Layout.RestackedKeepsIds | src/utils.ts:447-453 | every id keeps its position and presence on the canvas |
| Layout.SumHeightsSort | src/utils.ts:438-443 | sorting the column does not change its total of heights plus gaps |
| Layout.ColumnSpan | src/utils.ts:438-451 | the offset of entry i is the total of heights plus gaps of the entries before it |
| Navigation.Candidates | src/utils.ts:259-276 | a viewport node is a candidate iff it is beyond the selection and, in the first pass, straddles its midpoint |
| Navigation.CandidatesNonEmpty | src/utils.ts:276-278 | candidates exist iff some viewport node passes the filter |
| Navigation.ChooseNextNone | src/utils.ts:276-291 | nothing is chosen iff no viewport node lies strictly beyond the selection in the direction |
| Navigation.ChooseNextAligned | src/utils.ts:276-280 | with an aligned candidate, the choice is the first aligned node of least primary coordinate (the farthest one for top and left) |
| Navigation.ChooseNextFallback | src/utils.ts:281-290 | otherwise the choice is the first node beyond the selection of least secondary coordinate |
| Navigation.ChooseNextBeyond | src/utils.ts:262-290 | any choice is a viewport node strictly beyond the selection, so never the selected node |
| Navigation.SortedCandidatesHead | src/utils.ts:277-290 | the head of the stably sorted candidates is the first candidate with the least key |
| Commands.ChildStep | src/utils.ts:345-369 | without data nothing changes; otherwise one text node 200 right of the parent with its size and the given y, one right-to-left edge, and the new node alone selected |
| Commands.FileChildStep | src/utils.ts:26-62 | without data nothing changes; otherwise one file node with the path and subpath at the parent's width and 0.6 of its height, and one right-to-left edge; the selection stays |
| Commands.ParentOf | src/utils.ts:421-425 | the parent is the source of the first incoming edge |
| Commands.Children | src/index.ts:310-324 | one node per left-side child edge of the parent, each on the canvas |
| Commands.Relaid | src/index.ts:337-353 | moving the column keeps edges and selection and leaves a well-formed canvas |
| Commands.CreateSibling | src/utils.ts:415-458 | nothing changes unless one node is selected, is not editing (unless ignored) and has a parent |
| Commands.SiblingLayout | src/utils.ts:430-457 | the new child is returned iff the parent has at least two left-side children; only x and y of nodes change |
| Commands.RelaidEntry | src/index.ts:338-350 | each remaining child moves to the deleted node's x and to y0 plus the heights-and-gaps above it |
| Commands.RelaidSpacing | src/index.ts:346-349 | each child is placed 20 below the bottom of the child moved before it |
| Commands.RelaidSpan | src/index.ts:319-324 | the accumulated whole height is the column's total of heights plus gaps |
| Commands.SiblingLinks | src/utils.ts:428 | the only new edge links the parent to the new node, and the new node is alone selected |
| Commands.SiblingOnlyMoves | src/utils.ts:447-453 | the relayout changes nothing but x and y of the nodes after the new child is added |
| Commands.SiblingNewNode | src/utils.ts:427-428 | exactly one node is added, an empty text node of the parent's size; the other ids stay in place |
| Commands.SiblingResult | src/utils.ts:427-457 | a result exists iff the parent has two or more left-side children, and it is 200 right of the parent, 110 below the selection's midpoint |
| Commands.SiblingWithoutRelayout | src/utils.ts:445-446 | when the first two sorted children are not aligned, only the new node is added, at its computed place |
| Commands.SiblingRelaid | src/utils.ts:446-453 | when they are aligned, the result is the new canvas with the sorted column re-stacked at the selection's x |
| Commands.SiblingColumnEntry | src/utils.ts:447-453 | every column entry moves to the selection's x and starts 20 below the one before it |
| Commands.SiblingColumnCentred | src/utils.ts:448-450 | the re-stacked column is centred on the parent's vertical midpoint |
| Commands.SiblingOthersStay | src/utils.ts:447-453 | a node outside the column is not touched |
| Commands.LowestChild | src/utils.ts:400-410 | the chosen child is a node on the canvas |
| Commands.LowestChildIsChild | src/utils.ts:400-410 | the chosen node is one of the parent's left-side children |
| Commands.LowestChildIsLowest | src/utils.ts:409-410 | no left-side child lies lower than the chosen one |
| Commands.CreateChild | src/utils.ts:371-393 | nothing changes unless one node is selected, is not editing (unless ignored), and the canvas has data |
| Commands.CreateFirstChild | src/utils.ts:386-387 | a parent without left-side children gets a child at its own y, 200 to its right, linked and selected |
| Commands.NextChildReady | src/utils.ts:388-412 | selecting the lowest child makes the sibling path go ahead iff that child is not editing |
| Commands.Floating | src/utils.ts:299-343 | nothing changes unless one node is selected, is not editing and the canvas has data |
| Commands.FloatingPlaced | src/utils.ts:302-340 | one empty text node of the selection's size is added at the floating position, selected and editing; no edge is added |
| Commands.Navigate | src/utils.ts:237-297 | nodes and edges never change; nothing happens unless one node is selected and not editing |
| Commands.NavigateMoves | src/utils.ts:241-296 | the selection is cleared; the result is absent iff nothing lies beyond; a result lies beyond, is not the selected node and becomes the only selected node |
| Handlers.DeleteKey | src/index.ts:292-361 | other than one node selected goes to the host's Delete; a single selected node that is being edited or has no parent leaves the canvas unchanged |
| Handlers.DeleteLeavesOnlyChild | src/index.ts:330 | with exactly one child left, the handler stops after the host's Delete |
| Handlers.DeleteSelectsParent | src/index.ts:330-359 | otherwise the parent ends up alone selected and editing, and the edges are those the host left; the self-compare x guard never stops it |
| Handlers.DeleteKeepsOthers | src/index.ts:337-359 | the handler changes only x, y and editing of the nodes the host left |
| Handlers.DeleteRelaid | src/index.ts:309-359 | the result is the remaining sorted children re-stacked at the deleted node's x around the parent's bottom, the parent selected and editing |
| Handlers.DeleteColumnEntry | src/index.ts:338-350 | each remaining child is at the deleted node's x and starts 20 below the child before it |
| Handlers.DeleteColumnCentred | src/index.ts:343 | the re-stacked column is centred on the parent's bottom edge |
| Handlers.EditKey | src/index.ts:252-260 | the edit key changes no edge and no selection |
| Handlers.EditKeyEffect | src/index.ts:252-260 | a node is editing afterwards iff it was before or it is the single selected node without label or url |
| Handlers.EditKeyIdempotent | src/index.ts:364-372 | pressing the edit key twice is the same as once |
| Handlers.ColourOutgoing | src/index.ts:413-419 | an edge takes the colour iff it leaves the node; others stay |
| Handlers.SetColour | src/index.ts:410-421 | colouring keeps the selection and a well-formed canvas |
| Handlers.SetColourEffect | src/index.ts:410-419 | edges leaving the node take the colour, edges that only enter it keep theirs, and the node takes it too |
| Handlers.SetColourIdempotent | src/index.ts:410-419 | colouring twice is colouring once, and the last colour wins |
| Handlers.H1 | src/index.ts:70-72 | exactly the level-1 headings are kept |
| Handlers.HeadingChildren | src/index.ts:82-91 | after m headings the canvas holds the m heading children in order |
| Handlers.SplitHeadings | src/index.ts:53-93 | the selection stays; nothing changes unless one markdown file node with H1 headings is selected; otherwise each H1 heading gets its child |
| Handlers.HeadingRows | src/index.ts:88-89 | consecutive heading rows are 0.6 h + 20 apart |
| Handlers.SplitHeadingsNode | src/index.ts:82-91 | heading child j is a file node with subpath "#" + heading, 200 right of the parent, 0.6 of its height, at row j, linked right to left |
| Handlers.SplitHeadingsStacked | src/index.ts:74-90 | each heading child starts 20 below the bottom of the one before it |
| TreeBuilder.SuccessorsMembers | src/utils.ts:162-167 | the adjacency list of a node holds exactly the targets of the edges leaving it |
| TreeBuilder.Roots | src/utils.ts:169-171 | a node is a root iff no edge, on any side, points at it |
| TreeBuilder.AheadShrinks | src/utils.ts:199-217 | the number of nodes strictly beyond along the axis falls at each admitted child, so buildTree ends |
| TreeBuilder.Admitted | src/utils.ts:189-193 | a target is admitted iff it lies strictly further along the axis |
| TreeBuilder.VisitLinks | src/utils.ts:182-193 | every parent-child link of a visit follows an edge and lies strictly further along the axis |
| TreeBuilder.PushesLinks | src/utils.ts:189-193 | the same for the pushes over a list of targets |
| TreeBuilder.VisitOwnChildren | src/utils.ts:189-193 | a visit pushes onto its own node exactly the admitted targets, in edge order, duplicates kept |
| TreeBuilder.PushesOwnChildren | src/utils.ts:189-193 | the same for any list of targets |
| TreeBuilder.NoReturn | src/utils.ts:206-214 | a visit of an admitted child never pushes back onto the parent |
| TreeBuilder.ForestLinks | src/utils.ts:173-176 | every link in the forest follows an edge and lies strictly further along the axis |
| TreeBuilder.TreeNode.constructor | src/utils.ts:156-159 | a TreeNode starts with the node's data and no children |
| TreeBuilder.AddChild | src/utils.ts:191 | pushing onto the shared object records exactly one more push |
| TreeBuilder.VisitTarget | src/utils.ts:189-193 | handling one target records the pushes the pure visit makes for it |
| TreeBuilder.BuildTree | src/utils.ts:182-195 | returns the node's shared object, whose children are extended by the visit's pushes |
| TreeBuilder.WalkTargets | src/utils.ts:189-193 | the forEach over the targets records their pushes in order |
| TreeBuilder.NewNodeMap | src/utils.ts:155-160 | one fresh childless TreeNode per node id, none shared between ids |
| TreeBuilder.NewEdgeMap | src/utils.ts:162-167 | the map lists, per node id, the edge targets in edge-list order |
| TreeBuilder.PlantTrees | src/utils.ts:173-176 | one tree per root, in root order, each the root's shared object |
| TreeBuilder.BuildTrees | src/utils.ts:147-180 | one tree per root in node-list order, and every object's children are exactly what the forest pushed onto it |
| TreeBuilder.Childless | src/utils.ts:156-159 | every node id starts with no children |
| TreeBuilder.StartChildless | src/utils.ts:155-160 | the fresh node map matches an empty push history |
| Utils.AddNode | src/utils.ts:64-117 | without data nothing changes; otherwise exactly one node is appended, with the given id, geometry and content; edges and selection stay |
| Utils.AddEdge | src/utils.ts:119-145 | without data nothing changes; otherwise exactly one edge is appended; nodes and selection stay |
| Utils.CreateEdge | src/utils.ts:220-235 | the appended edge goes from a right side to a left side |
| Utils.ChildNode | src/utils.ts:345-369 | the canvas and result are those of Commands.ChildStep |
| Utils.CreateChildFileNode | src/utils.ts:26-62 | the canvas and result are those of Commands.FileChildStep |
| Utils.SumColumn | src/utils.ts:438-441 | the sum of heights plus the 20 gap over the column |
| Utils.StackColumn | src/utils.ts:447-453 | the sequential moveTo loop leaves the canvas as Commands.Relaid says |
| Utils.LayOutSiblings | src/utils.ts:430-457 | the relayout leaves the canvas and result as Commands.SiblingLayout says |
| Utils.CreateSiblingNode | src/utils.ts:415-458 | the canvas and result are those of Commands.CreateSibling |
| Utils.SiblingNode | src/utils.ts:395-413 | selecting the lowest child then creating a sibling, as Commands.CreateSibling says from that selection |
| Utils.CreateChildNode | src/utils.ts:371-393 | the canvas and result are those of Commands.CreateChild |
| Utils.CreateFloatingNode | src/utils.ts:299-343 | the canvas and result are those of Commands.Floating |
| Utils.Navigate | src/utils.ts:237-297 | the canvas and result are those of Commands.Navigate |
| Plugin.OnDeleteKey | src/index.ts:292-361 | the handler leaves the canvas as Handlers.DeleteKey says |
| Plugin.CollectChildren | src/index.ts:319-324 | the loop collects the parent's left-side children in edge order and their total of heights plus gaps |
| Plugin.OnEditKey | src/index.ts:252-260 | the handler leaves the canvas as Handlers.EditKey says |
| Plugin.PatchedSetColor | src/index.ts:410-421 | the patched setColor leaves the canvas as Handlers.SetColour says |
| Plugin.SplitHeadingIntoMindmap | src/index.ts:53-93 | the command leaves the canvas as Handlers.SplitHeadings says |
| Plugin.AddHeadingChildren | src/index.ts:82-91 | the forEach adds the heading children as Handlers.HeadingChildren says |
| RandomId.HexDigit | src/utils.ts:21 | a draw below 16 becomes one lower-case hexadecimal digit, a decimal digit iff the draw is below 10 |
| RandomId.DigitValue | src/utils.ts:21 | a hexadecimal digit stands for one draw below 16, which writes back to it |
| RandomId.HexRoundTrip | src/utils.ts:18-24 | the id is made of hexadecimal digits and reads back to the draws |
| RandomId.ValuesRoundTrip | src/utils.ts:18-24 | every hexadecimal id is the id of the draws read from it |
| RandomId.HexInjective | src/utils.ts:18-24 | different draws give different ids |
| RandomId.Random | src/utils.ts:18-24 | `random(e)` is e hexadecimal digits (none for e below 1), one per draw in order |

## Left out

- Plugin lifecycle, prototype patching, settings, command and key registration: host glue. The
  handlers they install are modelled; `Mod+l`/`Mod+j` are the sibling and child commands.
- `Math.random`: each id is a parameter that must not already be a node id, and `random` takes its
  draws as a parameter. Two draws colliding is not modelled.
- `setTimeout` and `async`: the deferred `startEditing` of a floating node is taken as done.
- `requestSave`, `requestFrame`, `render`, `zoomToSelection`, `zoomToFit`, `console.log`: no effect on
  the modelled state.
- The metadata cache and `TFile`: whether the file is markdown, its path and its headings are
  parameters.
- IEEE-754 rounding: coordinates are exact reals.
- The host API is modelled, not seen. `getEdgesForNode` is assumed to return the touching edges in
  edge-list order, `importData` to keep the selection, and the host's own Delete to remove the selected
  nodes, their edges and the selection.
- After the space key, the host's own key handling (`next.call`) is not modelled.
- Handlers.DeleteKey: when the deleted node is its own parent (a self-loop edge), the model stops after
  the host's Delete; the source would go on with a removed node.
- Handlers.SplitHeadings: with no node selected the source throws on the missing item; the model
  leaves the canvas unchanged.
- Commands.CreateChild: with no canvas data the source throws in `getData().edges`; the model
  leaves the canvas unchanged.
- TreeBuilder.BuildTrees: node ids must be unique and every edge endpoint a node id. The source
  dereferences a missing node in `shouldAddChild`.
- TreeBuilder.ShouldAddChild: the `default` branch is unreachable because the axis is one of four
  values.
- Plugin.SplitHeadingIntoMindmap: each y is computed as the closed form `Placement.HeadingY`, not
  through the source's hoisted `nodeGroupY`; the two are equal in exact arithmetic.
