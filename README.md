# Cerebellum annotation tools — a Dafny model

This project models the computational core of a set of tools for brain-atlas
annotations:

- **The region hierarchy reader** (`JSONread.py`). `search_children` walks
  the brain-region ontology in preorder. It fills the module-level lookup
  tables: names, path names (`parent path | name`), ids, acronyms, colours,
  parent links and leaf flags. Four queries read those tables:
  - `find_unique_regions`: the regions present in a volume, closed under
    their ancestors up to a top region;
  - `find_children`: the leaf ids below every region, and each region's
    depth above its leaves;
  - `filter_region`: the voxel mask of a region and its subtree;
  - `return_ids_containing_str_list`: a case-insensitive keyword search.

  Colours go between the two forms through `hex_to_rgb` and `rgb2hex`.
- **Two grid algorithms** (`annotate_cerebellum/utils.py`):
  - `draw_2d_line`, Bresenham's line in its all-octant integer-error form;
  - `find_group`, a 4-connected depth-first flood fill with an explicit
    stack and an `explored` array.
- **The annotation editor** (`annotate_cerebellum/annotation_image.py`,
  class `AnnotationImage`). It projects a volume of region ids onto six
  category codes: out 0, fib 1, prot 2, mol 3, gl 4, corrected 5, and -1
  for any other positive id. It then:
  - fits a view box and a slice position to the molecular and granular
    layers;
  - draws a tinted picture of the slice;
  - paints, fills and reverts voxels through the two-dimensional window,
    never touching `prot`;
  - keeps a one-level undo snapshot;
  - commits the codes back as region ids against a backup.

Module layout, one file each:

| module | contents |
|---|---|
| `Outcomes` | the Python exceptions raised, `Result` and `Option`, and the built-ins `abs`, `max` and `min` on integers |
| `Text` | ASCII `lower` and `find` |
| `NpUnique` | `np.unique` on ids and on pixel rows |
| `Colors` | `int(s, 16)` and hex colours |
| `Hierarchy` | the ontology walk as functions over table values |
| `Tables` | the tables as a class `RegionIndex` whose methods update its fields; the keyword query |
| `RegionQueries` | the queries over the tables |
| `Line` | `draw_2d_line` |
| `FloodFill` | `find_group` |
| `Categories` | codes, colours, projection and write-back of one id |
| `Volume` | flat volumes and the window onto them |
| `AnnotationEditor` | specification functions of the editing operations, the box scan and the array copies |
| `AnnotationModel` | the class `AnnotationImage`, with array fields updated in place, and `Open`, the checks of `__init__` |

Where the source updates state, the model does too. Each such method is
proved against a specification function, and the properties the source
relies on are proved about that function as lemmas:

- `SearchChildren` is proved equal to the functional walk `Visit`.
- `UpdateSlice` is proved equal to `Paint`.
- `RevertVoxels` is proved equal to `Revert`.
- `ApplyChanges` is proved equal to `Committed`.

## Model

| member | source | states |
|---|---|---|
| `Text.Lower` | JSONread.py:160 | `s.lower()` on ASCII text leaves no upper-case letter, and each character is the input's own or, for `A`..`Z`, its lower-case partner |
| `Text.LowerIdempotent` | JSONread.py:160 | lowering an already lowered name changes nothing |
| `Text.LowerEqual` | JSONread.py:160 | two names lower to the same string exactly when they are equal up to ASCII letter case, so the keyword search ignores case |
| `Text.Find` | JSONread.py:160-161 | `s.find(sub)` is nonnegative exactly when `sub` occurs in `s`, and is then the first position where it occurs |
| `NpUnique.Unique` | JSONread.py:111 | `np.unique` is strictly ascending and has exactly the elements of its input |
| `NpUnique.UniqueRows` | annotate_cerebellum/utils.py:109 | `np.unique(axis=0)` is in strict lexicographic row order and has exactly the rows of its input |
| `Colors.LStripHash` | JSONread.py:179 | `lstrip('#')` removes exactly the leading run of `#`: the result is a suffix that does not start with `#`, and everything removed is `#` |
| `Colors.ParseDigits` | JSONread.py:181 | `int(s, 16)` reads a non-empty string of hexadecimal digits of either case as its value, which is nonnegative |
| `Colors.ParseHexAccepts` | JSONread.py:181 | `int(s, 16)` also accepts a minus sign (negating the value), a `0x` prefix and whitespace around the digits |
| `Colors.ParseHexRefuses` | JSONread.py:181 | `int(s, 16)` raises ValueError for a leading or trailing underscore and for two underscores after the prefix |
| `Colors.ParseHexEmpty` | JSONread.py:181 | `int(s, 16)` raises ValueError for an empty or blank string, a bare sign and a bare `0x` |
| `Colors.ChunksCover` | JSONread.py:181 | the slices `v[i:i+step]` over `range(start, len(v), step)` are non-empty and concatenate back to `v[start:]` |
| `Colors.ChunkCount` | JSONread.py:181 | there is one slice per start of the range: none when `start` is past the end, otherwise the last start is before the end and the next one is not |
| `Colors.ChunkAt` | JSONread.py:181 | slice `k` is `v[start + k*step : min(start + (k+1)*step, len(v))]` |
| `Colors.ParseAll` | JSONread.py:181 | the tuple of parsed chunks exists exactly when every chunk parses, and then holds each chunk's value in order |
| `Colors.HexToRgb` | JSONread.py:169-181 | after stripping `#`: ValueError when fewer than three characters remain (`range` step 0) |
| `Colors.HexToRgbChunks` | JSONread.py:169-181 | from three characters on, the colour reads exactly when every chunk of a third of the length reads in base 16, and component `k` is the value of chunk `k` |
| `Colors.HexToRgbDigits` | JSONread.py:169-181 | a colour of at least three hexadecimal digits always reads, with one nonnegative component per chunk: the value of its digits |
| `Colors.SignedChunks` | JSONread.py:169-181 | chunks with a plus sign read as numbers: `hex_to_rgb("+f+f+f")` is (15, 15, 15), and likewise for any digit |
| `Colors.HexToRgbSix` | JSONread.py:169-181 | a six-digit colour, with or without `#`, reads as three components in 0..255, one per digit pair |
| `Colors.Rgb2Hex` | JSONread.py:184-185 | formatting succeeds exactly when there are at least three components (the format takes the first three) |
| `Colors.Fmt02xByte` | JSONread.py:185 | `'{:02x}'` writes a component in 0..255 as exactly two lower-case digits, high digit first |
| `Colors.HexRoundTrip` | JSONread.py:169-185 | `rgb2hex(hex_to_rgb(h))` is the lower-cased digits of a six-digit `h`, without `#` |
| `Colors.RgbRoundTrip` | JSONread.py:169-185 | `hex_to_rgb(rgb2hex(rgb))` gives back every colour whose three components lie in 0..255 |
| `Text.HexDigitOfVal` | JSONread.py:185 | reading a hex digit of either case and writing its value back gives the lower-case digit |
| `Hierarchy.PathOf` | JSONread.py:202 | a path name is strictly longer than its parent's path name |
| `Hierarchy.Register` | JSONread.py:202-222 | registration succeeds exactly when the node has name, id, acronym and a readable colour; a missing name changes nothing and raises KeyError; the path tables change only once name, id and acronym are read, by the node's own entry |
| `Hierarchy.RegisterLinksLinked` | JSONread.py:207-214 | registering a path below a registered parent keeps every parent path a strict prefix of its child's path, up to the separator, every path with an id, and the id order duplicate-free |
| `Hierarchy.VisitLinked` | JSONread.py:188-233 | the whole walk keeps those link invariants and never drops a registered path |
| `Hierarchy.VisitFromLinked` | JSONread.py:227-231 | the sibling loop keeps those link invariants and never drops a registered path |
| `Hierarchy.VisitFrame` | JSONread.py:188-233 | visiting a node writes only path entries longer than its parent's path, so the entries of its ancestors stay as they were |
| `Hierarchy.VisitFromFrame` | JSONread.py:227-231 | the sibling loop writes no path entry shorter than the node's own path, and leaves the ids up to that length alone |
| `Hierarchy.VisitOwnEntry` | JSONread.py:211-231 | after its walk, a node's parent link is its parent's path and its id is its own; its leaf flag is 1 exactly when it has no children or its first child raised |
| `Hierarchy.VisitFromKeepsCleared` | JSONread.py:227-231 | once a child returns normally and the flag is 0, no later sibling sets it back to 1 |
| `Hierarchy.WellFormedVisit` | JSONread.py:188-233 | a tree whose nodes carry name, id, acronym and a readable colour (`hex_to_rgb` succeeds) is walked without a raise, and the walked node's own flag says exactly whether it has children |
| `Hierarchy.WellFormedVisitFrom` | JSONread.py:227-231 | over a well-formed node the sibling loop returns normally from any child onwards |
| `Tables.RegionIndex.constructor` | JSONread.py:4-20 | all tables start empty |
| `Tables.RegionIndex.AddName` | JSONread.py:202-204 | lists the path, and maps name to path and path to name; every other table is unchanged |
| `Tables.RegionIndex.AddAcronym` | JSONread.py:205-215 | the id-to-name, id-to-acronym, name-to-id, name-to-acronym and name-to-parent-name entries; every other table is unchanged |
| `Tables.RegionIndex.AddLinks` | JSONread.py:207-214 | id-to-path, path-to-id and path-to-parent; a new id joins the end of the key order, a known one keeps its place; nothing else changes |
| `Tables.RegionIndex.AddColor` | JSONread.py:220-222 | the colour under path and id, and the name appended to the key list; nothing else changes |
| `Tables.RegionIndex.RegisterNode` | JSONread.py:202-222 | the tables and outcome are those of `Register`, including the partial writes before a missing key |
| `Tables.RegionIndex.SearchChildren` | JSONread.py:188-233 | the tables and outcome of `search_children` are those of the preorder walk `Visit` |
| `Tables.RegionIndex.SearchSiblings` | JSONread.py:223-233 | the child loop: the tables and outcome are those of `VisitFrom` from the first child |
| `Tables.RegionIndex.SearchChildrenLinked` | JSONread.py:188-233 | started at the root or below a registered path, the walk keeps the link invariants of the tables |
| `Tables.KeywordsIn` | JSONread.py:159-163 | the keyword loop finds every keyword in the lower-cased path exactly when each keyword occurs there, ignoring case |
| `Tables.RegionIndex.IdsContaining` | JSONread.py:143-166 | `return_ids_containing_str_list` returns the query `Matching` over the ids in insertion order |
| `Tables.Matching` | JSONread.py:153-166 | the only exception the query raises is KeyError |
| `Tables.MatchingMeaning` | JSONread.py:153-166 | the query raises exactly when leaves are forced and some path has no leaf flag; otherwise it returns exactly the ids that are leaves (when forced) and whose path holds every keyword |
| `Tables.MatchingError` | JSONread.py:157 | the query raises exactly when a forced leaf flag is missing |
| `Tables.MatchingNoDup` | JSONread.py:154-165 | each id is returned at most once |
| `Tables.MatchingPrefixErr` | JSONread.py:157 | once a KeyError is raised on some id, the whole query raises |
| `Tables.MatchingAll` | JSONread.py:153-166 | with no keywords and no leaf restriction the query returns every id, in insertion order |
| `RegionQueries.Labels` | JSONread.py:51 | `np.unique(annotation)[1:]` is ascending and holds only labels of the volume |
| `RegionQueries.LabelsMeaning` | JSONread.py:51 | a label is kept exactly when it occurs and some smaller label occurs too |
| `RegionQueries.AddAncestors` | JSONread.py:55-62 | the ancestor loop only appends and lists nothing twice; every id it appends is the id of a proper ancestor of the label's path, met before the root path; its only exception is KeyError; every id listed has its parent listed, except where the walk stops at the root path or at "" |
| `RegionQueries.KeepLabel` | JSONread.py:52-62 | a label whose path contains the top name ends up listed with its ancestors; the list only grows, stays duplicate-free and closed under parents, and holds only kept labels and ancestors of kept labels below the root path |
| `RegionQueries.FindUniqueRegions` | JSONread.py:23-64 | KeyError when the top region has no path or no parent; otherwise: no duplicates, every kept label whose path contains the top name is listed, every id listed is such a label or the id of an ancestor of one, met before the top region's parent, and the list is closed under parents up to the top region's parent |
| `RegionQueries.ClosedHasAncestors` | JSONread.py:52-62 | the converse: a list closed under parents holds, with each id, the ids of all of its ancestors met before the root path or "" |
| `RegionQueries.ChainNext` | JSONread.py:108 | walking up, the parent of each ancestor path is the next ancestor, or "" after the last |
| `RegionQueries.Places` | JSONread.py:105 | `np.where(uniques == x)` lists exactly the positions holding `x`, and two or more places mean `uniques` has a repeat |
| `RegionQueries.RaiseDepth` | JSONread.py:103-106 | the depth of an ancestor in `uniques` becomes at least the number of steps; ValueError (the truth value of a comparison of several elements) exactly when the ancestor's id occurs at two or more places of `uniques`, which then has a repeat |
| `RegionQueries.ClimbStep` | JSONread.py:98-108 | one pass of the upward walk keeps the climb invariant: carried ids listed under every ancestor passed; depths raised and attained |
| `RegionQueries.ClimbLeaf` | JSONread.py:93-108 | for one leaf: the lists only grow and stay sound, the leaf and the ids of `uniques` met are listed under every ancestor above them, and depths bound the leaf's distances from below; it raises only KeyError (a broken chain) or ValueError (a repeat in `uniques`) |
| `RegionQueries.VisitId` | JSONread.py:92-108 | one pass of the outer loop: a leaf is climbed from, any other id changes nothing; the invariants extend to that id |
| `RegionQueries.UniqueLists` | JSONread.py:110-111 | every list is replaced by a strictly ascending list of the same ids, under the same keys |
| `RegionQueries.ChildListsUnique` | JSONread.py:110-111 | sorting without repeats keeps the lists complete and sound |
| `RegionQueries.FindChildren` | JSONread.py:67-112 | every leaf is listed under every ancestor; a non-leaf id is listed only under regions above it and only if it is in `uniques`; lists are sorted without repeats; each depth is the largest number of steps from a leaf up to that id, or 0; KeyError or ValueError (repeat in `uniques`) are the only exceptions, and neither arises when every lookup succeeds |
| `RegionQueries.FilterRegion` | JSONread.py:115-140 | KeyError exactly when the path has no leaf flag or id, or is not a leaf and has no list; otherwise the mask has the volume's size and is true exactly on the region's id, plus (not a leaf) the ids listed under it |
| `RegionQueries.FilterRegionSubtree` | JSONread.py:133-140 | with the lists of `find_children`, the mask keeps only the region's own id, leaves below it and ids of `uniques` below it, and keeps every voxel of a leaf below a non-leaf region |
| `Line.Walk` | annotate_cerebellum/utils.py:88-108 | the loop ends; it emits `max(abs(dx), abs(dy)) + 1` cells from the start to the end, each 8-adjacent to the next, all in the endpoints' bounding box, none twice |
| `Line.Advance` | annotate_cerebellum/utils.py:98-108 | one pass away from the end never takes the inner breaks, moves one step along the major axis, keeps the error balanced and moves to an 8-adjacent cell toward the end |
| `Line.StepBalanced` | annotate_cerebellum/utils.py:98-108 | short of the end, `e2 >= dy` means x has steps left, `e2 <= dx` means y has steps left, at least one holds, and the error stays balanced |
| `Line.DrawLine` | annotate_cerebellum/utils.py:81-109 | the result is sorted by row then column, without repeats, has `max(abs(dx), abs(dy)) + 1` cells, holds both endpoints and stays in their bounding box |
| `FloodFill.RegionWithinEnclosure` | annotate_cerebellum/utils.py:74-77 | a pixel reachable from a pixel of a closed set lies in that set |
| `FloodFill.MarkExplored` | annotate_cerebellum/utils.py:70 | `explored` marks exactly the explored pixels plus the popped one, and the unexplored part shrinks |
| `FloodFill.PushNeighbours` | annotate_cerebellum/utils.py:74-77 | pushes only unexplored in-bounds neighbours not already waiting, keeps the stack duplicate-free, and leaves every neighbour explored or waiting |
| `FloodFill.PopUnlabelled` | annotate_cerebellum/utils.py:69-72 | popping a pixel without the label keeps the search invariant |
| `FloodFill.PopLabelled` | annotate_cerebellum/utils.py:72-77 | popping a labelled pixel and pushing its neighbours keeps the search invariant with the pixel in the group |
| `FloodFill.ExploreTop` | annotate_cerebellum/utils.py:69-77 | one pass of the `while` loop keeps the search invariant and explores one more pixel |
| `FloodFill.SearchDone` | annotate_cerebellum/utils.py:69-78 | with the stack empty the group is exactly the labelled 4-connected region of the start, without repeats |
| `FloodFill.FindGroup` | annotate_cerebellum/utils.py:56-78 | the result holds every pixel joined to the start through pixels labelled `id_reg`, and only those, each once and each labelled; empty when the start lacks the label |
| `Categories.Number` | annotate_cerebellum/annotation_image.py:8-15 | codes 0 to 5, in dictionary order: the code of a key is its place in the key order |
| `Categories.KeyOf` | annotate_cerebellum/annotation_image.py:193-197 | a key is found exactly for codes 0 to 5, and it is the one with that code |
| `Categories.KeyOfNumber` | annotate_cerebellum/annotation_image.py:193-197 | looking up a key's code gives that key back |
| `Categories.CodeUpToMeaning` | annotate_cerebellum/annotation_image.py:59-63 | after the first `n` keys, a label takes the code of the last of them whose list holds it; with none, -1 when positive and 0 otherwise |
| `Categories.CodeMeaning` | annotate_cerebellum/annotation_image.py:59-63 | the projection of a label is the code of the last key listing it; a label no key lists is -1 when positive and 0 otherwise |
| `Categories.TintRange` | annotate_cerebellum/annotation_image.py:145-148 | over a grey level in 0..255, each tinted channel is in grey..255, and differs from the grey exactly where the category colour has a component (below white) |
| `Categories.InvIds` | annotate_cerebellum/annotation_image.py:50-53 | six slots: the first id of mol, gl and fib at their codes, 0 elsewhere |
| `Categories.CommitProjects` | annotate_cerebellum/annotation_image.py:50-53 | writing back a mol, gl or fib code and projecting again gives the code back, unless a later key also lists the id; any other code is written back as 0 |
| `Volume.StoredInShape` | annotate_cerebellum/annotation_image.py:76-80 | the axis-2 swap maps the swapped shape onto the stored one and is its own inverse |
| `Volume.Locate` | annotate_cerebellum/annotation_image.py:83 | every stored place has coordinates in the editor's shape |
| `Volume.StorageInShape` | annotate_cerebellum/annotation_image.py:233 | a voxel is inside the editor's view of the volume exactly when its stored position is inside the stored volume |
| `Volume.PositionInBox` | annotate_cerebellum/annotation_image.py:114-127 | `get_position` of a window pixel is inside the volume, on the slice and within the box |
| `Volume.PixelOffsetInjective` | annotate_cerebellum/annotation_image.py:114-127 | distinct window pixels show distinct voxels |
| `Volume.SliceOf` | annotate_cerebellum/annotation_image.py:91-112 | `get_slice` has one index per axis |
| `Volume.SliceIsWindow` | annotate_cerebellum/annotation_image.py:91-127 | the voxels `get_slice` selects are exactly those `get_position` yields for the window pixels |
| `Volume.WindowImage` | annotate_cerebellum/annotation_image.py:223 | `annCPY[get_slice()]` has the window's size, and each entry is the voxel under that pixel |
| `Volume.Shown` | annotate_cerebellum/annotation_image.py:146 | the value under a window pixel is the stored value at its place |
| `AnnotationEditor.PaintFrame` | annotate_cerebellum/annotation_image.py:160-171 | painting changes only voxels under listed window pixels that were not `prot`, to the key's code or `corrected`; it writes `out` only where the backup is `out`; the key can only change from `out` to `corrected`; a pass that writes nothing changes nothing |
| `AnnotationEditor.PaintUniform` | annotate_cerebellum/annotation_image.py:162-165 | when every listed pixel shows `prot` or the key's code, nothing is written |
| `AnnotationEditor.PaintCovers` | annotate_cerebellum/annotation_image.py:160-171 | after a pass every listed window pixel that was not `prot` shows the key's code or `corrected` |
| `AnnotationEditor.PaintCodes` | annotate_cerebellum/annotation_image.py:171 | painting keeps every voxel a code from -1 to 5 |
| `AnnotationEditor.FillPaint` | annotate_cerebellum/annotation_image.py:222-225 | painting one label's pixels changes nothing when the label is `prot` or already the key's code; otherwise every one of them ends up with the key's code or `corrected` |
| `AnnotationEditor.RevertMeaning` | annotate_cerebellum/annotation_image.py:186-191 | each listed window pixel that is not `prot` gets its backup code; `prot` ones and every other voxel are unchanged |
| `AnnotationEditor.RevertCodes` | annotate_cerebellum/annotation_image.py:191 | reverting keeps a code volume a code volume |
| `AnnotationEditor.CommitAgain` | annotate_cerebellum/annotation_image.py:231-238 | committing twice with no edit in between restores the original annotation everywhere: a commit is not idempotent |
| `AnnotationEditor.Projection` | annotate_cerebellum/annotation_image.py:59-63 | the projection has one code in -1..5 per voxel |
| `AnnotationEditor.ReconciledMeaning` | annotate_cerebellum/annotation_image.py:74-75 | exactly the `out` voxels whose backup differs become `corrected`; against an equal backup nothing changes |
| `AnnotationEditor.CopyVolume` | annotate_cerebellum/annotation_image.py:73 | `np.copy` is a fresh array with the same contents |
| `AnnotationEditor.CopyInto` | annotate_cerebellum/annotation_image.py:177 | the target gets the source's contents |
| `AnnotationEditor.Project` | annotate_cerebellum/annotation_image.py:59-63 | the loops produce the projection of the id volume |
| `AnnotationEditor.MarkCorrected` | annotate_cerebellum/annotation_image.py:74-75 | the masked write produces the reconciled codes |
| `AnnotationEditor.TissueCountZero` | annotate_cerebellum/annotation_image.py:83 | no mol or gl voxel is counted exactly when there is none |
| `AnnotationEditor.MeanBounds` | annotate_cerebellum/annotation_image.py:88 | the floor of the mean lies between the smallest and largest coordinate |
| `AnnotationEditor.BoxWithin` | annotate_cerebellum/annotation_image.py:83-87 | each box range lies in the volume, is not empty, and covers the lowest and highest tissue coordinate |
| `AnnotationEditor.BoxFitted` | annotate_cerebellum/annotation_image.py:83-88 | the box built from the gathered extremes is the fitted view box |
| `AnnotationEditor.ScanPlace` | annotate_cerebellum/annotation_image.py:83-88 | one place of the scan keeps count, sum and extremes of the tissue voxels seen |
| `AnnotationEditor.ScanTissue` | annotate_cerebellum/annotation_image.py:83-88 | none exactly when there is no mol or gl voxel; otherwise the box reaches from the lowest to the highest tissue coordinate per axis (margins added, clipped); the slice is the floor of the mean on the viewing axis; and the view is valid |
| `AnnotationModel.RowsMax` | annotate_cerebellum/annotation_image.py:136 | `np.max` over the window is at least every shown value and is one of them |
| `AnnotationModel.GreyRange` | annotate_cerebellum/annotation_image.py:136-141 | over nonnegative nissl values every grey level is in 0..255, and the brightest pixel is white unless the window is black |
| `AnnotationModel.FindKey` | annotate_cerebellum/annotation_image.py:193-197 | the key lookup loop finds the first key, in dictionary order, with that code |
| `AnnotationModel.RevertColour` | annotate_cerebellum/annotation_image.py:192-203 | no colour is drawn exactly for a nonnegative code of no category; a negative code shows plain grey; any other code shows its tint |
| `AnnotationModel.Component` | annotate_cerebellum/annotation_image.py:222-224 | `find_group` on the window picture returns exactly the pixels reachable from the position through its code |
| `AnnotationModel.IdsError` | annotate_cerebellum/annotation_image.py:49-53 | no error exactly when mol, gl and fib are keys with non-empty lists; otherwise KeyError for the first missing key or IndexError for the first empty list, in the order mol, gl, fib |
| `AnnotationModel.SavedCodes` | annotate_cerebellum/annotation_image.py:66-73 | the backup holds codes, and without an original annotation it is the annotation's own projection |
| `AnnotationModel.Open` | annotate_cerebellum/annotation_image.py:33-89 | an Exception for a nissl or backup shape mismatch, then KeyError or IndexError from the id lookups, then an Exception for a bad axis, then ValueError exactly when there is no mol or gl voxel; otherwise the editor holds the reconciled codes, the backup codes, a snapshot equal to the codes and the fitted view box, with the picture drawn |
| `AnnotationModel.AnnotationImage.constructor` | annotate_cerebellum/annotation_image.py:42-89 | all fields as given, the inverse id table of the dictionary, a fresh snapshot equal to the codes, and the picture drawn |
| `AnnotationModel.AnnotationImage.GenerateImage` | annotate_cerebellum/annotation_image.py:129-149 | every window pixel gets its shaded grey level, and that level tinted by its voxel's code |
| `AnnotationModel.AnnotationImage.DrawRow` | annotate_cerebellum/annotation_image.py:134-148 | one more row of the picture is drawn |
| `AnnotationModel.AnnotationImage.DrawPixel` | annotate_cerebellum/annotation_image.py:134-148 | one more pixel of the row is drawn |
| `AnnotationModel.AnnotationImage.UpdateSlice` | annotate_cerebellum/annotation_image.py:151-174 | the codes become `Paint` of the listed pixels; the snapshot becomes the codes before the call exactly when something was written, and is otherwise untouched; the picture stays in step |
| `AnnotationModel.AnnotationImage.PaintPixel` | annotate_cerebellum/annotation_image.py:160-174 | one pixel as in `PaintStep`; the snapshot is taken at the first write of the call |
| `AnnotationModel.AnnotationImage.PaintVoxel` | annotate_cerebellum/annotation_image.py:166-174 | the voxel gets the key's code, or `corrected` when painting `out` over a voxel whose backup is not `out`, and the key stays that way |
| `AnnotationModel.AnnotationImage.SaveState` | annotate_cerebellum/annotation_image.py:167 | the snapshot equals the current codes |
| `AnnotationModel.AnnotationImage.SetVoxel` | annotate_cerebellum/annotation_image.py:171-174 | exactly the voxel under the pixel gets the key's code; the picture stays in step |
| `AnnotationModel.AnnotationImage.RevertVoxels` | annotate_cerebellum/annotation_image.py:180-203 | the codes become `Revert` of the listed pixels; the snapshot is not touched; the picture stays in step |
| `AnnotationModel.AnnotationImage.RevertPixel` | annotate_cerebellum/annotation_image.py:186-203 | one pixel as in `RevertStep` |
| `AnnotationModel.AnnotationImage.RestoreVoxel` | annotate_cerebellum/annotation_image.py:191-203 | exactly the voxel under the pixel gets its backup code |
| `AnnotationModel.AnnotationImage.RevertSlice` | annotate_cerebellum/annotation_image.py:176-178 | the codes become the snapshot and the picture is redrawn; the snapshot is unchanged, so a second revert changes nothing |
| `AnnotationModel.AnnotationImage.ChangeSlice` | annotate_cerebellum/annotation_image.py:205-212 | the slice position is the new one and the picture is redrawn |
| `AnnotationModel.AnnotationImage.Fill` | annotate_cerebellum/annotation_image.py:214-225 | paints exactly the pixels reachable from the position through its code, with `Paint` and one snapshot; nothing changes when that code is `prot` or the key's code; otherwise each pixel of the group ends up with the key's code or `corrected` |
| `AnnotationModel.AnnotationImage.ApplyChanges` | annotate_cerebellum/annotation_image.py:227-238 | voxels whose code differs from the backup get the id of their code, the others the original annotation's id, and the backup becomes the codes; without an original annotation the first write still happens, then TypeError, with the backup unchanged |

## Left out

- I/O: `load_nrrd_npy_file`, `save_nrrd_npy_file` and `DEFAULT_HEADER` in `annotate_cerebellum/utils.py`. The JSON input of the walk is a `Node` tree value. The `print` of the swallowed KeyError is not modelled.
- `readSpinal` in `JSONread.py`: an alternate loader that none of the modelled code calls.
- `annotate_cerebellum/paint_tools.py`, `manual_annotation_correct.py` and `setup.py` are not part of this model. They hold the GUI wiring, an interactive script and packaging.
- Floating point, each replaced by an integer form:
  - the colour darkening of `search_children` (`JSONread.py` 216-219): the tables store the parsed integer triple, undarkened;
  - `np.rint` in `rgb2hex`: components are integers;
  - the nissl normalisation of `generate_image`: nissl values are integers, and the grey level is `255 * x / max` with integer division;
  - `int(np.mean(...))` for the slice position: the integer floor of sum over count.
- Integer widths: the `int8`, `uint8` and `uint16` arrays hold unbounded integers. The code volumes hold -1..5 and the picture channels 0..255 (`Categories.TintRange`), so no value written would wrap.
- Volumes are flat sequences in row-major order. The axis-2 `swapaxes` is a coordinate permutation (`Volume.Stored`), not a reshaped array, so `apply_changes` needs no index swap.
- `np.copy` reassignments (`backup = copy(annCPY)`, `annCPY = copy(previous_state)`) are in-place copies into arrays allocated once, so the fields never alias each other. The pictures are likewise allocated once and redrawn in place.
- The projection in `__init__` is computed voxel by voxel, with the keys in their order. The source makes one masked pass per key. The result is the same, as `Categories.CodeMeaning` states.
- `apply_changes` is one pass over the voxels instead of two masked assignments. Without an original annotation it raises after the first assignment, as the source does.
- Category keys are a datatype, so `update_slice` and `fill` cannot be called with a key that is not in the dictionary. The source would raise KeyError for such a key.
- Nissl values are nonnegative where grey levels are stated (`AnnotationModel.GreyRange`).
- `AnnotationModel.AnnotationImage.Fill`: requires the seed's component to stay off the window border, given as a ghost `enclosure`. `find_group` never bounds-checks: index -1 wraps around and an index equal to the size raises. Neither case is modelled.
- `FloodFill.FindGroup` and `AnnotationModel.Component`: the same border precondition.
- `AnnotationModel.AnnotationImage.ChangeSlice`: requires the new position to be inside the volume on the viewing axis. The source checks nothing: `change_slice` calls `generate_image` itself, so the same call wraps around for a position from minus the axis size to -1, and raises IndexError for any other position outside the volume.
- `AnnotationModel.AnnotationImage.UpdateSlice`: pixels are integer pairs. Pixels with negative coordinates are skipped by the window check, as in the source.
- `AnnotationModel.AnnotationImage`: its invariant `Valid` does not include the grey levels (`Greyed`). Only the drawing methods (`GenerateImage`, `RevertSlice`, `ChangeSlice`, the constructor) ensure them. The painting methods leave them untouched.
- `Line.Walk` and `Line.DrawLine`: the endpoints are integers. With float endpoints, the inner `abs(x0 - x1) < 1` breaks could end the loop early and `np.rint` would round the cells; neither is modelled.
- `Text.Lower`: maps only the ASCII letters `A`..`Z`. Python's `str.lower` also lower-cases other letters, some into several characters, which changes the length.
- `Colors.ParseHex`: ASCII only. Python's `int` also accepts non-ASCII decimal digits and non-ASCII whitespace, which the model refuses.
- `Line.DrawLine`: states order, count, endpoints and bounding box of the result. It does not state set equality with the walk's cells, because the walk is a method. The body connects them through `NpUnique.UniqueRows`.
- `RegionQueries.FindUniqueRegions`: states the KeyError for a missing top region, and that KeyError is the only exception. It does not state exactly which missing path entry raises for other labels.
- `RegionQueries.FindChildren`: states a sufficient condition for success (`Complete`) and the possible exceptions. It does not state exactly when each lookup fails.
- `RegionQueries.AddAncestors`: states only that KeyError is the possible exception, not when it occurs.
- Specification functions have no row of their own. Each computes what the cited source computes, and its properties are stated by the rows named after it:
  - `Hierarchy.Visit` and `Hierarchy.VisitFrom` (the walk of `search_children`): `VisitLinked`, `VisitFromLinked`, `VisitFrame`, `VisitFromFrame`, `VisitOwnEntry`, `VisitFromKeepsCleared`, `WellFormedVisit`, `WellFormedVisitFrom`, `Tables.RegionIndex.SearchChildren` and `Tables.RegionIndex.SearchSiblings`.
  - `Colors.ParseHex` (`int(s, 16)`): `ParseDigits`, `ParseHexAccepts`, `ParseHexRefuses`, `ParseHexEmpty`, `ParseAll`, `HexToRgbChunks` and `SignedChunks`.
  - `Colors.Chunks` (the `range`/slice split of `hex_to_rgb`): `ChunksCover`, `ChunkCount`, `ChunkAt`, `HexToRgbChunks` and `HexToRgbDigits`.
  - `Categories.Code` and `Categories.CodeUpTo` (the label projection of `AnnotationImage.__init__`): `CodeUpToMeaning`, `CodeMeaning` and `CommitProjects`.
  - `Categories.Tint`, `Categories.Colourise` and `Categories.Clip` (the tint of `generate_image`): `TintRange` and `AnnotationModel.RevertColour`.
  - `Categories.Commit` (the `inv_dict` lookup of `apply_changes`): `CommitProjects`.
  - `Volume.Position` and `Volume.PixelOffset` (`get_position`): `PositionInBox`, `PixelOffsetInjective` and `SliceIsWindow`.
  - `Volume.WindowRow` (one row of the shown slice): `WindowImage`.
  - `AnnotationEditor.PaintStep` and `AnnotationEditor.Paint` (`update_slice`): `PaintFrame`, `PaintUniform`, `PaintCovers`, `PaintCodes`, `FillPaint`, and the methods `AnnotationModel.AnnotationImage.PaintPixel`, `UpdateSlice` and `Fill`.
  - `AnnotationEditor.RevertStep` and `AnnotationEditor.Revert` (`revert_voxels`): `RevertMeaning`, `RevertCodes`, and the methods `AnnotationModel.AnnotationImage.RevertPixel` and `RevertVoxels`.
  - `AnnotationEditor.Committed` (`apply_changes`): `CommitAgain` and `AnnotationModel.AnnotationImage.ApplyChanges`.
  - `AnnotationEditor.Reconciled` (the masked write of `__init__`): `ReconciledMeaning`, `MarkCorrected` and `AnnotationModel.Open`.
  - `AnnotationEditor.ViewBox`, `AnnotationEditor.Margin`, `AnnotationEditor.TissueCount` and `AnnotationEditor.TissueSum` (the view box of `__init__`): `TissueCountZero`, `MeanBounds`, `BoxWithin`, `BoxFitted`, `ScanPlace`, `ScanTissue` and `AnnotationModel.Open`.
  - `AnnotationModel.RowMax`, `AnnotationModel.WindowMax` and `AnnotationModel.Shade` (the nissl normalisation of `generate_image`): `RowsMax`, `GreyRange`, and the methods `AnnotationModel.AnnotationImage.DrawRow` and `DrawPixel`.
  - `RegionQueries.Chain` (the parent chain that `find_children` climbs from each leaf): `ChainNext`, `ClimbLeaf` and `FindChildren`.
