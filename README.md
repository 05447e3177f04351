# MarkdownTool core, modelled in Dafny

MarkdownTool is a WPF Markdown editor. It has a folder sidebar, an editor text box, a live preview and a table of contents. This project models the deterministic logic behind those panes and proves properties of it:

- **File tree** (`FileTree`, `file_tree.dfy`). `FileTreeItem` is a lazily loaded tree node.
  - A directory node starts with one "加载中..." placeholder child whose path is empty.
  - `LoadChildren` replaces the placeholder with the node's visible subdirectories that hold Markdown somewhere below, then its non-hidden `*.md` and `*.markdown` files.
  - The children come directories first, each group in `OrdinalIgnoreCase` name order.
  - If nothing qualifies, the listing is refused or the listing fails, there is a single status node instead.
  - `HasMarkdownFiles` is the recursive test for "holds Markdown".
  - The filesystem is a finite tree value (`Directory`): each directory has hidden/system flags, an access outcome, its files with their hidden flag, and its subdirectories.
- **Table of contents** (`Outline`, `outline.dfy`).
  - `ExtractHeadingsFromHtml` turns heading matches into `TocItem`s: level, explicit or `heading-<index>` id, and `LineNumber = index + 1`.
  - `UpdateTableOfContents` folds the flat list into a forest with an explicit stack. It pops every entry whose level is at least the new heading's level. The heading then becomes a root or the last child of the stack top, and is pushed.
- **Editor helpers** (`Editor`, `editor.dfy`).
  - `AddHeadingIds` inserts `id="heading-<n>"` into heading tags that have no `id=`. Its counter advances on every tag. Nothing in `MainWindow.xaml.cs` calls it; it is modelled as written.
  - Markdown table generation and the dialog's row/column bounds.
  - The selection wrapping of `InsertMarkdownSyntax`.
  - The view flags: `ToggleEditor`, `TogglePreview`, the three-state `ToggleView` cycle, and the `UpdateViewVisibility` repair that never leaves the editor and the preview both hidden.
- **Text** (`text.dfy`) holds the .NET string operations these rely on:
  - ordinal case-insensitive comparison;
  - `EndsWith` on a wildcard suffix;
  - `Contains`;
  - `Char.IsWhiteSpace`, `Trim` and `IsNullOrWhiteSpace`;
  - decimal rendering of counters.

The source works in four ways, and the model follows each:

- State changed in place becomes classes with `modifies` clauses. This covers `FileTreeItem.Children` and the window's view flags and text box.
- Loops become methods with invariants:
  - `CollectEntries`, `ExtractHeadings`, `AddHeadingIds` and `GenerateTable` are proved equal to a specification function, and so is `ScanForMarkdown`, the early-return loop of `HasMarkdownFiles`;
  - `NodesFor` is proved to build nodes that show the given items, in order;
  - `BuildOutline` is proved to satisfy the outline's properties: its pre-order is the input, every parent is the nearest earlier smaller heading, and children are deeper.
- The pure parts become functions and lemmas. These are the sort, the bounds check and the `prefix + t + suffix` composition.
- Calls into code outside the model are parameters:
  - the directory listing found at a path;
  - the answer of `Directory.Exists`;
  - the HTML rendering and heading regex (a function from text to heading matches);
  - `WebUtility.HtmlDecode` (an opaque `string -> string`).

Two behaviours of the code are easy to misread:

- **Reload after a status node.** `LoadChildren`'s guard only asks for "one child with an empty path". Status nodes ("(无 Markdown 文件)", "(无权访问)", "错误: …") also have an empty path, so a load that ended in a status node runs again on the next expansion. Only a load that produced real entries is final. `FileTreeItem.LoadChildren` states this.
- **Hidden Markdown files.** `HasMarkdownFiles` counts hidden Markdown files, because the wildcard listing ignores attributes. `LoadChildren` does not list them. So a directory whose only Markdown file is hidden is shown, and when expanded it shows "(无 Markdown 文件)". `FileTree.HiddenMarkdownOnly` states this for every such directory.

## Model

| member | source | states |
|---|---|---|
| `Text.FoldChar` | MarkdownTool/FileTreeItem.cs:126 | the model's case folding maps a-z to A-Z and keeps every other character; .NET also folds non-ASCII letters (see Left out) |
| `Text.LessEqIgnoreCase` | MarkdownTool/FileTreeItem.cs:126 | StringComparer.OrdinalIgnoreCase as an order: folded character codes compared left to right, a proper prefix first; its order laws are the four lemmas below |
| `Text.LessEqIgnoreCaseReflexive` | MarkdownTool/FileTreeItem.cs:126 | the OrdinalIgnoreCase order is reflexive |
| `Text.LessEqIgnoreCaseTotal` | MarkdownTool/FileTreeItem.cs:126 | any two names are comparable |
| `Text.LessEqIgnoreCaseTransitive` | MarkdownTool/FileTreeItem.cs:126 | the order is transitive |
| `Text.LessEqIgnoreCaseAntisymmetric` | MarkdownTool/FileTreeItem.cs:126 | names that sort at or before each other differ only in letter case |
| `Text.Contains` | MarkdownTool/MainWindow.xaml.cs:317 | `attributes.Contains("id=")`: the substring is a prefix of some suffix; ContainsIffOccurs ties it to positions |
| `Text.ContainsIffOccurs` | MarkdownTool/MainWindow.xaml.cs:317 | String.Contains holds exactly when the substring occurs at some position |
| `Text.IsNullOrWhiteSpace` | MarkdownTool/MainWindow.xaml.cs:1350 | String.IsNullOrWhiteSpace: every character is Char.IsWhiteSpace (the empty text included) |
| `Text.Trim` | MarkdownTool/MainWindow.xaml.cs:1443 | String.Trim as TrimStart then TrimEnd; the lemmas below state what it cuts and keeps |
| `Text.TrimStartCuts` | MarkdownTool/MainWindow.xaml.cs:1443 | the result is a suffix that does not start with whitespace, and everything cut off is whitespace |
| `Text.TrimEndCuts` | MarkdownTool/MainWindow.xaml.cs:1443 | the result is a prefix that does not end with whitespace, and everything cut off is whitespace |
| `Text.TrimCutsWhiteSpace` | MarkdownTool/MainWindow.xaml.cs:1443 | Trim keeps a contiguous piece of the text and cuts only whitespace before and after it |
| `Text.TrimEmptyIffBlank` | MarkdownTool/MainWindow.xaml.cs:1350 | the trimmed piece has no whitespace at either end, and it is empty exactly when the text IsNullOrWhiteSpace |
| `Text.TrimIdempotent` | MarkdownTool/MainWindow.xaml.cs:1443 | trimming twice equals trimming once |
| `Text.DigitChar` | MarkdownTool/MainWindow.xaml.cs:1442 | a decimal digit character with the given value |
| `Text.NatToString` | MarkdownTool/MainWindow.xaml.cs:1442 | the interpolated counter is non-empty, all decimal digits, without a leading zero |
| `Text.ParseNatToString` | MarkdownTool/MainWindow.xaml.cs:1442 | reading the rendered digits back gives the counter (round trip) |
| `Text.NatToStringInjective` | MarkdownTool/MainWindow.xaml.cs:1442 | distinct counters render differently |
| `FileTree.ReachImpliesHasMarkdown` | MarkdownTool/FileTreeItem.cs:153-195 | a route of readable, visible subdirectories that ends at a Markdown file makes HasMarkdownFiles true |
| `FileTree.HasMarkdownWitness` | MarkdownTool/FileTreeItem.cs:153-195 | when HasMarkdownFiles is true there is such a route |
| `FileTree.HasMarkdownFilesIffRoute` | MarkdownTool/FileTreeItem.cs:153-195 | HasMarkdownFiles holds iff a Markdown file can be reached through readable, non-hidden, non-system subdirectories; an unreadable directory yields false |
| `FileTree.HasMarkdownFiles` | MarkdownTool/FileTreeItem.cs:153-195 | the recursive test: a readable directory with a Markdown file, hidden or not, or with a visible subdirectory that passes; HasMarkdownFilesIffRoute characterises it |
| `FileTree.ScanForMarkdown` | MarkdownTool/FileTreeItem.cs:153-195 | the early-return loops over the files and then the subdirectories, skipping hidden and system ones, answer exactly HasMarkdownFiles |
| `FileTree.RootLength` | MarkdownTool/FileTreeItem.cs:47 | the Windows path root that Path.GetFileName never cuts into (`\\server\share`, `\`, `C:\`, `C:`) lies within the path |
| `FileTree.FileName` | MarkdownTool/FileTreeItem.cs:47 | Path.GetFileName: the text after the last separator, or after the root when the last separator lies inside it; FileNameSuffix characterises it |
| `FileTree.FileNameSuffix` | MarkdownTool/FileTreeItem.cs:47 | Path.GetFileName returns the separator-free tail that starts at or after the root, right after a separator or right at the end of the root |
| `FileTree.DisplayName` | MarkdownTool/FileTreeItem.cs:47-51 | the node's Name: Path.GetFileName of the path, or the whole path when that is empty; DisplayNameRule states both cases |
| `FileTree.DisplayNameRule` | MarkdownTool/FileTreeItem.cs:47-51 | a node's name is the file name when that is non-empty and otherwise the full path; it is empty only for the empty path |
| `FileTree.ChildPath` | MarkdownTool/FileTreeItem.cs:76 | a listed entry's path is strictly longer than the entry name: the join always adds the parent or a separator |
| `FileTree.FileNameOfSeparated` | MarkdownTool/FileTreeItem.cs:47 | given the last separator, GetFileName is the rest of the path after it, or after the root when the separator lies inside the root |
| `FileTree.ShareRootName` | MarkdownTool/FileTreeItem.cs:47-51 | a UNC share root `\\server\share` has an empty file name, so its node is named by the full path |
| `FileTree.DriveRelativeName` | MarkdownTool/FileTreeItem.cs:47-51 | a drive-relative path `C:name` is named `name` |
| `FileTree.DriveRootName` | MarkdownTool/FileTreeItem.cs:47-51 | a drive root `C:\` has an empty file name, so its node is named by the full path |
| `FileTree.ChildPathName` | MarkdownTool/FileTreeItem.cs:47-51 | a node made for a listed entry is named by the entry's own name, when the parent path holds its whole root |
| `FileTree.EntryItem` | MarkdownTool/FileTreeItem.cs:92 | an entry node has a non-empty path under its parent and the right directory flag |
| `FileTree.DirItemsMembers` | MarkdownTool/FileTreeItem.cs:76-99 | the directory pass yields exactly the visible subdirectories that hold Markdown |
| `FileTree.FileItemsMembers` | MarkdownTool/FileTreeItem.cs:105-120 | a wildcard pass yields exactly the non-hidden files whose name ends with the extension in any letter case |
| `FileTree.MarkdownExtensionItems` | MarkdownTool/FileTreeItem.cs:102-121 | the files come from a `*.md` pass followed by a `*.markdown` pass |
| `FileTree.CollectedMembers` | MarkdownTool/FileTreeItem.cs:73-121 | the collected entries are exactly the listed subdirectories (as directories) and the non-hidden Markdown files (as files) |
| `FileTree.PrecedesTotal` | MarkdownTool/FileTreeItem.cs:124-127 | the directories-first, then-by-name order relates any two items |
| `FileTree.PrecedesTransitive` | MarkdownTool/FileTreeItem.cs:124-127 | that order is transitive |
| `FileTree.InsertItem` | MarkdownTool/FileTreeItem.cs:124-127 | insertion keeps a sorted list sorted and adds exactly the one item |
| `FileTree.InsertFront` | MarkdownTool/FileTreeItem.cs:124-127 | an item that precedes the head of a sorted list can go first |
| `FileTree.InsertBehind` | MarkdownTool/FileTreeItem.cs:124-127 | an item that does not precede the head goes into the rest, keeping the list sorted |
| `FileTree.SortItems` | MarkdownTool/FileTreeItem.cs:124-127 | the sort returns a sorted permutation of its input |
| `FileTree.InsertItemTies` | MarkdownTool/FileTreeItem.cs:124-127 | insertion puts the new item in front of every item with the same sort key |
| `FileTree.SortItemsStable` | MarkdownTool/FileTreeItem.cs:124-127 | OrderBy/ThenBy is stable: items with the same sort key keep their input order |
| `FileTree.SortedDirectoriesFirst` | MarkdownTool/FileTreeItem.cs:124-127 | in a sorted list every directory comes before every file |
| `FileTree.Loaded` | MarkdownTool/FileTreeItem.cs:62-148 | a load always produces at least one child |
| `FileTree.LoadedStatusCases` | MarkdownTool/FileTreeItem.cs:134-147 | a single empty-path child appears exactly when the listing fails or nothing qualifies; it reads "(无权访问)" on denial, "错误: " plus the message on another failure, and "(无 Markdown 文件)" when nothing qualifies |
| `FileTree.LoadedMembers` | MarkdownTool/FileTreeItem.cs:76-121 | the real children of a load are exactly the listed subdirectories and the non-hidden Markdown files of a readable directory; nothing qualifying is omitted |
| `FileTree.LoadedSorted` | MarkdownTool/FileTreeItem.cs:124-132 | loaded children are directories first, each group in case-insensitive name order |
| `FileTree.HiddenMarkdownOnly` | MarkdownTool/FileTreeItem.cs:105-111 | a readable directory with Markdown files, all hidden, satisfies HasMarkdownFiles, yet loads as the single "no Markdown" status node exactly when none of its subdirectories is listed |
| `FileTree.SortedCollectedEntryLike` | MarkdownTool/FileTreeItem.cs:124-131 | every sorted entry has a non-empty path and is named after it |
| `FileTree.CollectDirectories` | MarkdownTool/FileTreeItem.cs:76-99 | the foreach over the subdirectories collects exactly the directory pass |
| `FileTree.CollectFiles` | MarkdownTool/FileTreeItem.cs:105-120 | the foreach over a wildcard's files collects exactly that pass |
| `FileTree.CollectEntries` | MarkdownTool/FileTreeItem.cs:73-121 | the directory loop and then the loop over both wildcards collect exactly the unsorted entries |
| `FileTree.FileTreeItem.constructor` | MarkdownTool/FileTreeItem.cs:44-60 | the node gets the path, the display name and the directory flag; a directory has exactly one fresh placeholder child with an empty path, and anything else has no children |
| `FileTree.FileTreeItem.Synthetic` | MarkdownTool/FileTreeItem.cs:58 | a placeholder or status node has an empty path, the caption as its name, no directory flag and no children |
| `FileTree.FileTreeItem.NodesFor` | MarkdownTool/FileTreeItem.cs:129-132 | one fresh node per sorted item, in order, each constructed from the item's path |
| `FileTree.FileTreeItem.LoadedNodes` | MarkdownTool/FileTreeItem.cs:69-147 | the try block and its handlers produce one fresh node per loaded item; the result is a single empty-path node exactly when the listing fails or nothing qualifies |
| `FileTree.FileTreeItem.ReadableNodes` | MarkdownTool/FileTreeItem.cs:71-138 | on a readable directory: the sorted entries, or the single "no Markdown" node |
| `FileTree.FileTreeItem.AwaitingLoad` | MarkdownTool/FileTreeItem.cs:64 | LoadChildren's guard: a directory whose only child has an empty path |
| `FileTree.FileTreeItem.LoadChildren` | MarkdownTool/FileTreeItem.cs:62-148 | outside the guard nothing changes; otherwise the placeholder is replaced by the loaded nodes, and the node is awaiting a load again exactly when the result was a status node |
| `Outline.Level` | MarkdownTool/MainWindow.xaml.cs:1441 | the level parsed from the tag digit is in 1..6 and is that digit's value |
| `Outline.SynthesizedIdsDistinct` | MarkdownTool/MainWindow.xaml.cs:1442 | `heading-i` and `heading-j` differ when i differs from j |
| `Outline.ItemOf` | MarkdownTool/MainWindow.xaml.cs:1441-1451 | the TocItem built from one match; DescribesMatchUnique shows it is the only item describing the match |
| `Outline.DescribesMatchUnique` | MarkdownTool/MainWindow.xaml.cs:1441-1451 | an item with the match's level, decoded trimmed title, LineNumber i+1 and id is exactly the one the loop builds |
| `Outline.Extracted` | MarkdownTool/MainWindow.xaml.cs:1438-1455 | the list the foreach builds, one ItemOf per match in order; the lemmas below characterise it |
| `Outline.ExtractedLength` | MarkdownTool/MainWindow.xaml.cs:1438-1455 | the extraction yields one item per match |
| `Outline.ExtractedAt` | MarkdownTool/MainWindow.xaml.cs:1438-1455 | item i is made from match i and nothing else |
| `Outline.ExtractedDescribes` | MarkdownTool/MainWindow.xaml.cs:1438-1455 | item i has the level of match i's tag digit, the decoded trimmed text as title, LineNumber i+1, and the explicit id or else `heading-i` |
| `Outline.MakeItem` | MarkdownTool/MainWindow.xaml.cs:1441-1451 | the loop body builds an item that describes its match: the tag digit's level, the decoded trimmed title, LineNumber index + 1, the explicit id or else `heading-index` |
| `Outline.ExtractedIdsDistinct` | MarkdownTool/MainWindow.xaml.cs:1442 | two headings without explicit ids get different ids |
| `Outline.ExtractHeadings` | MarkdownTool/MainWindow.xaml.cs:1430-1458 | the indexed foreach produces exactly Extracted |
| `Outline.ParentsLength` | MarkdownTool/MainWindow.xaml.cs:1380-1387 | the forest assigns one parent to each node |
| `Outline.GraftFlatten` | MarkdownTool/MainWindow.xaml.cs:1380-1387 | adding a node as a root or as the last child on the rightmost path appends it to the pre-order |
| `Outline.GraftSpine` | MarkdownTool/MainWindow.xaml.cs:1386-1389 | after the graft, the rightmost path is the kept stack plus the new node |
| `Outline.GraftParents` | MarkdownTool/MainWindow.xaml.cs:1380-1387 | the new node's parent is nothing when the stack is empty, otherwise the stack top |
| `Outline.GraftRootsAbove` | MarkdownTool/MainWindow.xaml.cs:1380-1387 | a graft keeps every top-level node above a level, provided a new root is above it too |
| `Outline.GraftDeeper` | MarkdownTool/MainWindow.xaml.cs:1384-1387 | a graft under a shallower stack top keeps every child deeper than its parent |
| `Outline.NearestBelow` | MarkdownTool/MainWindow.xaml.cs:1375-1378 | the reference parent search returns an earlier position, or -1 |
| `Outline.NearestBelowSpec` | MarkdownTool/MainWindow.xaml.cs:1375-1378 | that position is the nearest earlier heading with a smaller level, and -1 means there is none |
| `Outline.RootIffNoSmallerBefore` | MarkdownTool/MainWindow.xaml.cs:1380-1383 | a heading is a root exactly when no earlier heading has a smaller level |
| `Outline.ParentIsNearestSmaller` | MarkdownTool/MainWindow.xaml.cs:1384-1387 | a non-root heading's parent is the nearest earlier heading with a smaller level |
| `Outline.EqualLevelsAreSiblings` | MarkdownTool/MainWindow.xaml.cs:1375-1386 | a heading with the same level as the previous one is its sibling (same parent), never its child |
| `Outline.PopStepStack` | MarkdownTool/MainWindow.xaml.cs:1374-1389 | after popping and pushing, the stack is still a chain of strictly increasing levels holding exactly the open headings |
| `Outline.PopAtLeast` | MarkdownTool/MainWindow.xaml.cs:1375-1378 | the pop loop leaves a prefix of the stack whose top is below the new heading's level, having removed only entries at or above it |
| `Outline.FoldOne` | MarkdownTool/MainWindow.xaml.cs:1366-1390 | one iteration of the foreach (pop, attach as root or child, push) keeps the fold invariant for one more heading |
| `Outline.BuildOutline` | MarkdownTool/MainWindow.xaml.cs:1363-1390 | the stack fold yields a forest whose pre-order is the input; every node's parent is its nearest earlier heading with a smaller level; every child is deeper than its parent |
| `Outline.UpdateTableOfContents` | MarkdownTool/MainWindow.xaml.cs:1346-1397 | blank text or no headings gives an empty outline; otherwise the outline of the extracted headings with the properties of BuildOutline |
| `Editor.WithHeadingIds` | MarkdownTool/MainWindow.xaml.cs:303-325 | the rewrite maps each segment to one segment |
| `Editor.Rewrite` | MarkdownTool/MainWindow.xaml.cs:310-322 | the evaluator's answer for one segment: text kept, a tag with `id=` kept, any other tag given ` id="heading-n"` before its attributes; WithHeadingIdsKeeps states it for a whole text |
| `Editor.Evaluate` | MarkdownTool/MainWindow.xaml.cs:309-323 | the match evaluator rewrites one segment as Rewrite does and advances the counter exactly on a heading tag |
| `Editor.AddHeadingIds` | MarkdownTool/MainWindow.xaml.cs:303-325 | the replacement with a running counter produces exactly WithHeadingIds |
| `Editor.IdAttributeHasId` | MarkdownTool/MainWindow.xaml.cs:317-322 | an inserted id attribute contains `id=` |
| `Editor.WithHeadingIdsKeeps` | MarkdownTool/MainWindow.xaml.cs:311-322 | text stays as it is; tags keep their level and attributes; a tag mentioning `id=` is unchanged; any other tag gets `heading-n`, n counting every earlier tag |
| `Editor.EveryHeadingHasId` | MarkdownTool/MainWindow.xaml.cs:316-322 | afterwards every heading tag contains `id=` |
| `Editor.WithHeadingIdsIdempotent` | MarkdownTool/MainWindow.xaml.cs:316-320 | a second run changes nothing |
| `Editor.WithHeadingIdsWellFormed` | MarkdownTool/MainWindow.xaml.cs:307 | rewritten tags still have the attribute shape the pattern captures |
| `Editor.TagCountGrows` | MarkdownTool/MainWindow.xaml.cs:314 | the counter is strictly larger at a later tag |
| `Editor.InsertedIdsDistinct` | MarkdownTool/MainWindow.xaml.cs:314 | two heading tags are given different counter ids |
| `Editor.SkippedTagAdvancesCounter` | MarkdownTool/MainWindow.xaml.cs:314-320 | a worked example of WithHeadingIdsKeeps: a tag that keeps its own id still uses up `heading-0`, so the next tag gets `heading-1` |
| `Editor.TableText` | MarkdownTool/MainWindow.xaml.cs:934-964 | the StringBuilder's text: a line break, then every table line followed by a line break; TableShape and GenerateTable state its shape |
| `Editor.TableLines` | MarkdownTool/MainWindow.xaml.cs:934-965 | the table has rows + 2 lines |
| `Editor.AppendHeaderRow` | MarkdownTool/MainWindow.xaml.cs:939-944 | the loop appends `|` and the cells ` 列1 |` to ` 列cols |` |
| `Editor.AppendRow` | MarkdownTool/MainWindow.xaml.cs:947-962 | the inner loops append `|` and cols copies of the cell |
| `Editor.GenerateTable` | MarkdownTool/MainWindow.xaml.cs:934-964 | the StringBuilder holds a line break, then the header, separator and data rows, each followed by a line break |
| `Editor.HeaderCellsCount` | MarkdownTool/MainWindow.xaml.cs:939-944 | the header cells hold one `|` per column and no line break |
| `Editor.RowIsTableLine` | MarkdownTool/MainWindow.xaml.cs:946-963 | a separator or data row starts and ends with `|`, has cols + 1 of them, and has no line break |
| `Editor.HeaderIsTableLine` | MarkdownTool/MainWindow.xaml.cs:939-944 | the header row has the same shape |
| `Editor.TableShape` | MarkdownTool/MainWindow.xaml.cs:934-966 | line 0 is the header, line 1 the separator, the rest data rows, and every line is a row of cols cells |
| `Editor.AcceptedTableBounds` | MarkdownTool/MainWindow.xaml.cs:921-924 | an accepted size gives 3 to 22 lines of 1 to 10 cells |
| `Editor.Wrap` | MarkdownTool/MainWindow.xaml.cs:1072-1085 | the new selection lies within the new text |
| `Editor.WrapSelects` | MarkdownTool/MainWindow.xaml.cs:1072-1085 | afterwards exactly t (the selection, or the default text when it is empty) is selected, starting at selectionStart plus the prefix length; the prefix sits right before it, the suffix right after it, and the surrounding text is unchanged |
| `Editor.WrapUndo` | MarkdownTool/MainWindow.xaml.cs:1076-1081 | removing the inserted prefix and suffix restores the original text |
| `Editor.NextMode` | MarkdownTool/MainWindow.xaml.cs:1277 | the mode stays in 0..2 and wraps from 2 to 0 |
| `Editor.ModeFlags` | MarkdownTool/MainWindow.xaml.cs:1279-1292 | modes 0, 1, 2 show (editor, preview) = both, editor only, preview only; something is always shown |
| `Editor.Repair` | MarkdownTool/MainWindow.xaml.cs:1219-1222 | after the repair something is shown, the editor flag is untouched, and nothing changes unless both were hidden |
| `Editor.ModeCycle` | MarkdownTool/MainWindow.xaml.cs:1277 | three clicks return to the start after visiting all three modes |
| `Editor.RepairIdempotent` | MarkdownTool/MainWindow.xaml.cs:1219-1222 | repairing twice equals repairing once |
| `Editor.EditorWindow.constructor` | MarkdownTool/MainWindow.xaml.cs:30-33 | the window starts in preview-only mode 2, with the editor hidden, the preview shown, an empty text (line 76) and an empty selection |
| `Editor.EditorWindow.UpdateViewVisibility` | MarkdownTool/MainWindow.xaml.cs:1216-1222 | the flags become Repair of the old flags; nothing else changes |
| `Editor.EditorWindow.ToggleEditor` | MarkdownTool/MainWindow.xaml.cs:1182-1186 | the editor flag flips, then the repair runs; the editor and preview are never both hidden |
| `Editor.EditorWindow.TogglePreview` | MarkdownTool/MainWindow.xaml.cs:1188-1192 | the preview flag flips, then the repair runs |
| `Editor.EditorWindow.ToggleView` | MarkdownTool/MainWindow.xaml.cs:1275-1296 | the mode advances cyclically and the flags become that mode's flags |
| `Editor.EditorWindow.InsertMarkdownSyntax` | MarkdownTool/MainWindow.xaml.cs:1061-1087 | a hidden editor switches the window to mode 0 with both panes shown; the text box becomes Wrap of its old state |
| `Editor.EditorWindow.GenerateAndInsertTable` | MarkdownTool/MainWindow.xaml.cs:934-967 | the generated table is inserted as a prefix before the selection, with no suffix and no default text; the view changes only as InsertMarkdownSyntax changes it (to the split view when the editor was hidden) |
| `Editor.EditorWindow.InsertTable` | MarkdownTool/MainWindow.xaml.cs:919-930 | the table is inserted iff both fields parsed with 1..20 rows and 1..10 columns, with the view and selection GenerateAndInsertTable gives; otherwise nothing changes |

## Left out

- WebView2, `NavigateToString`, the HTML page template and `ScrollToHeading`. These run in a foreign browser engine.
- Markdig rendering, the .NET regular expressions and `WebUtility.HtmlDecode`:
  - heading extraction takes the matches as a function of the text, and decoding is an opaque function;
  - `AddHeadingIds` works on HTML already cut into heading tags and other text, so how the pattern splits a string is not modelled.
- `int.TryParse` is not modelled: the table dialog's fields arrive already parsed, as optional integers.
- The `DispatcherTimer` debounce, dialogs, message boxes, key bindings, commands, and the open/save prompts. These are timing and UI flow.
- Presentation is not modelled:
  - grid column widths, the Visibility values set after the repair in `UpdateViewVisibility`, and the `TreeViewItem` construction and padding;
  - the status bar and `INotifyPropertyChanged` notifications;
  - keyboard focus after `InsertMarkdownSyntax`.
- Real filesystem calls. Each `LoadChildren` receives the `Directory` value found at its path, and the constructor receives the answer of `Directory.Exists`.
  - A listing that fails is modelled per directory: the whole `try` block fails, and the catch handler decides which status node appears.
  - A failure that only touches one entry's attributes (the per-entry `catch` blocks) is not modelled separately.
  - The model has no symbolic links, so the source's lack of a visited set (a possible cycle) does not arise. The finite tree is an assumption.
- OS wildcard quirks (short 8.3 names, three-letter extension matching) are not modelled: `*.md` is "ends with `.md`, ignoring letter case".
- `Text.FoldChar`: folds ASCII letters only. .NET's OrdinalIgnoreCase upper-cases every cased letter (so `é.md` sorts before `Ö.md` there and after it here) and compares UTF-16 code units, so a character outside the Basic Multilingual Plane sorts before U+E000..U+FFFF in .NET but after them here. The model's strings are sequences of Unicode scalar values with no case tables.
- `FileTree.RootLength`: device paths (`\\?\...`, `\\.\...`, `\\?\UNC\...`) are read as UNC roots, so their root length can differ from the one .NET computes. Ordinary UNC, drive and rooted paths follow .NET.
- `FileTree.FileTreeItem.LoadChildren`: the model allocates new nodes. Node identity, `ObservableCollection` change events and the order of allocations are not modelled.
- `Outline.BuildOutline`: the outline is modelled on values. The stack holds pre-order positions rather than references to mutable `TocTreeNode`s, and appending to a node's `Children` is a graft on the rightmost path of a value forest. Aliasing between the stack and the forest is therefore not modelled.
- `Outline.UpdateTableOfContents`: clearing and refilling the `TreeView` is not modelled. The method returns the forest it would show.
- `Editor.EditorWindow.InsertMarkdownSyntax`: the text box's own edit behaviour (undo stack, caret, change events) is not modelled. Only its text and selection are.
