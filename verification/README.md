# Texture Locator tree engine, modelled in Dafny

This project models the tree engine of the Blender add-on *Texture Locator* and of its
earlier sibling, the *Texture Utilities* panel. The engine scans the shader nodes of a
material for the image files they use and gathers the references per directory. It
keeps one entry per filename and orders the directories. It then lays the result out as
a flat list of rows that the UI draws as a tree: a folder row per directory, followed by
one file row per file. Each row stores the index of its parent row, or -1 for a root.

On top of that list the engine provides:

- the ancestor test `is_child`;
- the full path of a file row (`image_path`);
- the expand/collapse visibility filter and the indent depth;
- carrying the selection across a rescan;
- the two remap operators. Change File points every image of the selected file at a
  new file. Change Folder re-roots every file below the selected folder under a new
  directory and counts the files it cannot find. Both go through `replace_path`, which
  keeps a blend-relative path (`//...`) relative.

Modules, in dependency order:

- `Wrappers`: `Option` and `Result`.
- `Seqs`: order-keeping deduplication.
- `HostApi`: image data blocks, nodes, and the host calls. `abspath`, `split`, `is_subdir`,
  `exists`, `bpy.path.relpath`, `os.path.relpath` and `join` are fields of a `Host` value
  of total functions. Every operation is therefore stated for every host behaviour.
- `LexOrder`: string order under a character ranking, and the insertion sort of the
  directories.
- `PathIndex`: the grouping of references per directory and filename, with reference
  definitions to check it against.
- `Tree`: parent links, ancestors, `is_child`, both visibility filters, the indent loop
  and the run that Change Folder and Select walk.
- `ListItems`: the row record and `image_path`.
- `TreeBuilder`: lays out the rows. A folder's parent comes from the backward scan for
  the nearest enclosing folder.
- `Selection`: the carry-over of `list_index` across a rebuild.
- `ScanFacts`: what the rows of a scan say about the references.
- `Locator`: `do_scan` and the poll guard.
- `Remap`: `replace_path`, Change File and Change Folder.
- `Contiguity`: whether a folder's descendants form one contiguous run (see Findings).
- `Panel`: the Texture Utilities panel's scan, Relocate guard and Clear button.

The scan's own comment says it sorts the paths "so parents come before children"
(texture_locator.py:498), and Change Folder and Select stop at the first row that is not a
descendant, as if every descendant of a folder directly followed it. Python's `sorted`
orders by code point and does not guarantee that. `Locator.ScanAsWritten` keeps that
code-point order. `Locator.Scan`, and the lemmas about it, use the corrected order that
ranks the separator before every other character. The discrepancy is the first finding
below.

## Model

| member | source | states |
|---|---|---|
| Seqs.Dedup | texture_locator.py:486-496 | Keeping the first occurrence of each image keeps exactly the same set of values, and the first value met stays first |
| Seqs.DedupNoDup | texture_locator.py:486-496 | After deduplication no value occurs twice |
| LexOrder.Sort | texture_locator.py:499 | Sorting the directories is a permutation of them (same multiset) |
| LexOrder.SortSorted | texture_locator.py:499 | With an injective character ranking and distinct directories, the sorted list is strictly ascending |
| LexOrder.SortOfSorted | texture_locator.py:499 | Sorting an already ascending list returns it unchanged |
| LexOrder.LessTotal | texture_locator.py:499 | Under an injective ranking, any two distinct directory strings are ordered one way or the other |
| LexOrder.PrefixIsLess | texture_locator.py:499 | A directory sorts before every longer path it is a prefix of, whatever the ranking |
| PathIndex.FindDir | texture_locator.py:482-483 | The dictionary lookup `path in paths` finds the group with that directory, or says no group has it |
| PathIndex.FindName | texture_locator.py:487-492 | The scan of a directory's entries finds the entry with that filename, or says none has it |
| PathIndex.IndexMatchesRefs | texture_locator.py:470-496 | Grouping the references gives one group per distinct directory in first-seen order. Within a group there is one entry per distinct filename in first-seen order. Each entry holds the distinct images of exactly the references to that directory and filename |
| PathIndex.ImagesMembership | texture_locator.py:486-496 | An image belongs to a file's reference list exactly when some reference names that directory, filename and image |
| Tree.IsChildIffAncestor | texture_locator.py:146-152 | When parents precede children, `is_child(items, i, p)` holds exactly when `p` is a strict ancestor of `i`. The walk terminates |
| Tree.FilterItems | texture_locator.py:377-407 | The display order is the identity. A row is flagged shown exactly when every strict ancestor is expanded, so a root row is always shown |
| Tree.FilterItemsMasked | texture_utilities_panel.py:69-94 | The panel's filter gives the same result: identity order, and a row keeps `bitflag_filter_item` exactly when all its strict ancestors are expanded, 0 otherwise |
| Tree.Mask | texture_utilities_panel.py:91 | `flag & ~(0 if show else bitflag)` keeps a full flag when shown and clears it when hidden |
| Tree.IndentDepth | texture_utilities_panel.py:104-108 | The indent drawn for a row equals its number of strict ancestors |
| Tree.RunEnd | texture_locator.py:233-237 | The rows walked after a folder are exactly those from the folder onward that pass `is_child`, up to the first that fails |
| TreeBuilder.NearestFolder | texture_locator.py:522-527 | The backward scan yields -1 or the latest earlier folder row whose path contains the new directory. No folder row in between contains it |
| TreeBuilder.BuildLinked | texture_locator.py:520-566 | Every row of a layout points at -1 or at an earlier row |
| TreeBuilder.BuildShaped | texture_locator.py:520-566 | In the layout of sorted groups, a file row hangs off the nearest folder row above it. A folder row is expanded and takes the backward scan's answer as its parent. Folder paths ascend strictly |
| Selection.Reconcile | texture_locator.py:515-569 | The new `list_index` is -1 or a row of the new list |
| Selection.SelectFolder | texture_locator.py:537-540 | A remembered folder selects the folder row with the same path, and -1 exactly when there is none |
| Selection.SelectFile | texture_locator.py:537-564 | A remembered file selects the same-named file under the folder with the remembered parent path. If the file is gone it selects that folder. If the folder is gone it selects -1 |
| Selection.SelectNothing | texture_locator.py:507-515 | With nothing selected before, nothing is selected after |
| Selection.ReconcileCapture | texture_locator.py:505-569 | Reading a row's identity and then rebuilding the same rows puts the selection back on that same row |
| ScanFacts.IndexCovers | texture_locator.py:470-496 | The groups have distinct directories, one per referenced directory, each listing that directory's first-seen files and their images |
| ScanFacts.GroupsLaidOut | texture_locator.py:499-566 | The sorted groups still cover the references, ascend strictly, and are laid out row by row in sorted order |
| ScanFacts.RowsFileRow | texture_locator.py:546-554 | A file row sits under the folder row of its directory. It is that directory's n-th first-seen filename and holds the deduplicated images of its references, at least one |
| ScanFacts.RowsFileImages | texture_locator.py:485-496 | A file row's images are non-empty and duplicate-free. An image is among them exactly when some reference names the row's directory, filename and that image |
| ScanFacts.RowsFolderImages | texture_locator.py:530-535 | A folder row lists no images |
| ScanFacts.RowsCoverRef | texture_locator.py:470-554 | Every accepted reference has a file row under its directory's folder row, with its filename, that holds its image |
| ScanFacts.RowsFolderRow | texture_locator.py:520-535 | Every folder row is the directory of some accepted reference |
| ScanFacts.RowsShaped | texture_locator.py:499-550 | The rows of a scan have the layout shape stated for BuildShaped |
| ScanFacts.RowPathOfRef | texture_locator.py:530-549 | Every row's path is a reference's directory (folder row) or filename (file row) |
| ScanFacts.RowsFileNamesDistinct | texture_locator.py:486-496 | Two file rows under the same folder have different filenames |
| ScanFacts.RowsSelectable | texture_locator.py:505-569 | The rows meet everything the selection carry-over relies on: distinct folder paths, distinct filenames per folder, files under folders |
| ScanFacts.RowsFolderOfDir | texture_locator.py:499-536 | The rows of a scan have a folder row with a given path exactly when some reference lies in that directory |
| ScanFacts.RowsSelectFolder | texture_locator.py:537-540 | In the rows of a scan, a remembered folder selects the folder row of its directory, and -1 exactly when no reference lies there |
| ScanFacts.RowsSelectFile | texture_locator.py:537-564 | In the rows of a scan, a remembered file selects the same-named file row under its directory's folder row. Failing that, it selects the folder row, which happens only when no reference names that file in that directory. It selects -1 exactly when no reference lies in the directory |
| Locator.ShowSelectOrMove | texture_locator.py:169-174 | The Select, Change File and Change Folder buttons are offered only in the shader editor, and only with an in-range selection |
| Locator.NodeRef | texture_locator.py:473-479 | A node contributes a reference exactly when it has an image with a non-empty file path whose absolute path splits into a non-empty directory and filename. The reference carries those parts and that image |
| Locator.RefsMembership | texture_locator.py:470-479 | A reference is accepted exactly when some node contributes it |
| Locator.RefsAreNonEmpty | texture_locator.py:475-479 | Every accepted reference has a non-empty directory and filename |
| Locator.RefOfImage | texture_locator.py:473-479 | Two references to the same image name the same directory and filename, since both come from its one file path |
| Locator.ScanWith | texture_locator.py:460-569 | The scan raises exactly when the old selection cannot be read. Otherwise it yields the laid-out rows of the accepted references and a valid or -1 selection, and leaves the other fields alone |
| Locator.ScanSelects | texture_locator.py:505-569 | After a scan, nothing selected stays nothing. A selected folder goes to the folder row of the same directory, and to -1 exactly when no reference lies in that directory any more. A selected file goes to the same-named file row under its old directory's folder row, else to that folder row when no reference names the file there, else to -1 exactly when the directory is gone |
| Locator.ImagePathOfScan | texture_locator.py:180-183 | For a scanned file row, `image_path` is the join of the split absolute path of each of its images. It is that absolute path whenever `join` undoes `split` |
| Locator.RescanIsStable | texture_locator.py:460-569 | Scanning unchanged nodes a second time reproduces the same rows and keeps the selection on the same row |
| Remap.ReplacePath | texture_locator.py:189-195 | A path not starting with `//` is replaced verbatim. A blend-relative one gets exactly `relpath(new)`, or the new path itself if `relpath` raises. The stored form resolves back to the new path and stays blend-relative when it was |
| Remap.ReplacePathIdempotent | texture_locator.py:189-195 | Applying `replace_path` a second time with the same target that is not blend-relative leaves the path as the first call left it, when `relpath` yields blend-relative paths |
| Remap.RetargetAll | texture_locator.py:306-307 | Replacing the path of a list of images changes only those images and keeps the set of images. Each listed image ends with its retargeted record when the list has no repeats, or when the target is not blend-relative and `relpath` yields blend-relative paths |
| Remap.ChangeFile | texture_locator.py:286-312 | A missing file reports an error and changes nothing, `refresh_required` included. Otherwise no image outside the selected row changes and `refresh_required` becomes true. Each image of the row is retargeted under the same conditions as for Remap.RetargetAll |
| Remap.SweepRun | texture_locator.py:233-261 | The loop visits exactly the run after the folder. It ends with the images moved row by row, the missing count, and the refresh flag of that run |
| Remap.RunCounts | texture_locator.py:229-263 | `missing` is the number of visited file rows whose re-rooted candidate does not exist. `refresh_required` is set exactly when some visited file row's candidate exists or it was already set |
| Remap.RunImages | texture_locator.py:240-255 | A visited row is moved exactly when it is a file row whose re-rooted candidate exists, and it is moved to that candidate. Images of rows not moved keep their records. When no image is listed twice, which every scan guarantees, each image of a moved row points at its candidate |
| Remap.ScanImagesDisjoint | texture_locator.py:470-496 | The rows of any scan list no image twice, neither within one row nor under two rows, so the moved-images clause of Change Folder holds for every list a scan produces |
| Remap.ChangeFolder | texture_locator.py:214-264 | The whole operator: missing count, a warning exactly when it is non-zero, the refresh flag, unchanged images, and moved images, all over the run after the selected folder |
| Contiguity.RunIsSubtree | texture_locator.py:233-237 | For rows laid out in separator-first order with canonical POSIX directories, a row lies inside the run after a folder exactly when it is a descendant of that folder |
| Contiguity.ScanRunsAreSubtrees | texture_locator.py:499-550 | With the corrected ordering, the run that Change Folder and Select walk after any folder of a scan is exactly that folder's subtree |
| Contiguity.Contiguous | texture_locator.py:233-237 | In such rows, every row between a folder and one of its descendants is also a descendant |
| Contiguity.AsWrittenRunMissesSubfolder | texture_locator.py:499 | With `sorted`, the directories `/t`, `/t-old`, `/t/sub` give rows where a file of `/t/sub` descends from `/t`, yet the run after `/t` ends before it |
| Contiguity.CorrectedRunReachesSubfolder | texture_locator.py:499 | With the separator ranked first, the same references put `/t/sub` right after `/t`, and the run after `/t` covers it |
| Panel.PanelNodeRef | texture_utilities_panel.py:147-150 | A node contributes exactly when it is an image texture node with an image that is neither generated nor a viewer, and whose absolute path splits into both parts |
| Panel.PanelNodeRefAsWritten | texture_utilities_panel.py:147-148 | Reading `n.image.source` fails exactly on a texture node without an image, and otherwise agrees with the corrected node test |
| Panel.PanelRefsAsWritten | texture_utilities_panel.py:147-155 | Over the tree's nodes, the node loop as written fails exactly when some texture node has no image, and otherwise collects the corrected loop's references |
| Panel.PanelRefsMembership | texture_utilities_panel.py:147-155 | A reference is accepted exactly when some node contributes it |
| Panel.PanelRefsResolve | texture_utilities_panel.py:147-150 | Every accepted reference names a live, file-backed image and has a non-empty directory and filename |
| Panel.PanelScan | texture_utilities_panel.py:139-204 | A scan rebuilds the rows from the nodes alone and resets `list_index` to -1, so Relocate is not offered until a row is picked |
| Panel.PanelScanAsWritten | texture_utilities_panel.py:139-204 | The scan as written raises exactly when the editor has no node tree or some texture node has no image. Otherwise it is the corrected scan |
| Panel.PanelRowsStructure | texture_utilities_panel.py:159-200 | Folder rows ascend in code-point order. Each row records its own index and starts collapsed. Parents precede children. A file row hangs off the nearest folder row above it. A folder row hangs off the latest earlier folder containing it, with no containing folder in between |
| Panel.PanelLabels | texture_utilities_panel.py:170-195 | A nested folder is labelled by its path relative to its parent folder, which contains it. A root folder shows its full path and a file shows its filename |
| Panel.PanelImageNames | texture_utilities_panel.py:150-155 | A file row keeps the name of the first image, in node order, that references its directory and filename. A folder row keeps none |
| Panel.PanelRowsShowRoots | texture_utilities_panel.py:26 | Every row starts collapsed, so right after a scan the filter shows exactly the root rows |
| Panel.RemapFolderPoll | texture_utilities_panel.py:47-55 | Relocate is offered only in the node editor, and only when the selection is an in-range folder row |
| Panel.ResetFolders | texture_utilities_panel.py:215-218 | Clear empties the list and keeps the selection index, so Relocate is no longer offered |

## Left out

- Drawing, icons, `split_layout` and `padded_row`, registration, and the property-group plumbing: these are UI and host lifecycle with no engine logic.
- `fileselect_add`/`invoke`, `undo_push`, `preview.reload()`, `report` and `print`: these are host side effects. Warnings and errors are returned as flags, and the missing count as a number.
- The node walk of the Select operator and the material-change trigger: these are host data access. The run that Select walks is the same `RunEnd` that Change Folder walks.
- `RemapFolder.execute` only reports a message.
- Locator.ScanWith: the node list is a parameter. A missing node tree is the empty list, which gives the same outcome as the source's guard.
- Panel.PanelRefsAsWritten: takes the node list. The unguarded read of the node tree at texture_utilities_panel.py:147 is modelled by `Panel.PanelScanAsWritten`, which takes the tree as an option and fails on none.
- Filesystem and path semantics: `abspath`, `split`, `is_subdir`, `exists`, both `relpath`s and `join` are uninterpreted fields of `Host`. Lemmas that need more state it in their `requires` (`SplitJoins`, `RelpathResolves`, `PosixIsSubdir`).
- Contiguity.RunIsSubtree: proved for `is_subdir` as a POSIX string prefix test over canonical absolute directories (leading `/`, no trailing `/`). `normpath`/`normcase` and Windows paths are not modelled.
- Contiguity.ScanRunsAreSubtrees: carries the same restriction, requiring `is_subdir` to be the POSIX prefix test and every scanned directory to be canonical.
- Contiguity.Contiguous: carries the same restriction through `PosixRows`: separator-first rows, the POSIX prefix test and canonical folder paths.
- Remap.ChangeFile: requires the selection to be a row (`0 <= index < len(items)`), which the operator's poll (`show_select_or_move`) guarantees. Python's negative indexing is modelled only where the source relies on it, in the scan's read of the old selection. The retargeted-image clause is stated only for a row with no repeated image, or for a target that is not blend-relative with a `relpath` that yields blend-relative paths. Every file row of a scan has no repeated image (`ScanFacts.RowsFileImages`), and a folder row has none at all (`ScanFacts.RowsFolderImages`).
- Remap.RetargetAll: states each image's retargeted record under the same condition as Change File. When a list repeats an image, `replace_path` runs twice on it. If, in addition, the target is blend-relative or `relpath` may yield a path without the `//` prefix, the contract does not say where that image ends.
- Remap.ChangeFolder: requires an in-range selection for the same reason. The moved-images clause is stated only when no image is listed under two rows. Every scan's rows meet that condition (`Remap.ScanImagesDisjoint`). For a list no scan produces, with an image listed under two found files, the contract does not say which target the image ends with.
- Remap.RunImages: the moved-images clause carries the same no-image-listed-twice condition as Change Folder, which `Remap.ScanImagesDisjoint` discharges for every scan.
- Locator.RescanIsStable: stated only when no filename equals a directory path, because the selection walk compares a file's name with folder paths.
- Locator.ScanSelects: stated when no new filename is also a directory, and when the remembered folder path is no new filename and the remembered filename no new directory. Real directory paths carry separators that filenames lack. Nothing is stated for an old file row with an empty name, which no scan produces.
- `x.index` in `do_scan` is not a field of the locator's `ListItem` and is not modelled; the panel's `index` field is.
- The panel's rows are stated as the same layout as the locator's, in the panel's code-point order, with the panel's own fields. The run-based operators that make the order matter do not exist in the panel.

## Findings

| source | as written | input that shows it | evidently intended | confidence | as-written member | corrected member |
|---|---|---|---|---|---|---|
| texture_locator.py:499 | `sorted(paths.keys())` orders directories by code point, so `-` (and space, `.`) sorts before `/`, and a non-descendant folder can land between a folder and its subfolder. Change Folder and Select stop at the first row that fails `is_child` (texture_locator.py:233-237, 358-360), so they skip the subfolder's files | references in `/t` (file `a`), `/t-old` (file `b`) and `/t/sub` (file `c`). The rows are `/t`, `a`, `/t-old`, `b`, `/t/sub`, `c`. Row 5 descends from `/t`, but the run after `/t` ends at row 2 | every descendant of a folder directly follows it, as the comment "parents come before children" and the operators' early `break` assume. Ordering with the separator ranked before every other character gives this | high (not executed) | Contiguity.AsWrittenRunMissesSubfolder | Contiguity.ScanRunsAreSubtrees |
| texture_utilities_panel.py:148 | `n.image.source` is read on every `ShaderNodeTexImage` node, including one whose image slot is empty (`n.image is None`), which raises `AttributeError` and aborts the scan | any node list containing an image texture node with no image, e.g. a single such node | skip nodes without an image, as the locator's scan (texture_locator.py:473-475) and Select (texture_locator.py:339) both do | high (not executed) | Panel.PanelScanAsWritten | Panel.PanelScan |
