# Context-aware move and rename, modelled in Dafny

This is a model of the Obsidian plugin "Context-aware move and rename" and proofs about it.
In the editor, the plugin's commands look at the clickable token under the cursor:

- **Rename file or link** (and its link-only variant): with no token, it opens the native title editor; on an external link, it selects the link; on an internal link, it resolves the link and prompts to rename the file it points to.
- **Move file or link** (and its link-only variant): with no token, it opens the native move dialog; on an external link, it does nothing; on an internal link, it resolves the link, shows a folder picker, creates the chosen directory and moves the file into it.
- **First revision** (`main.ts`): one rename command whose link text goes through its own normalization: non-breaking spaces are folded, the text is put in NFC, and it is split at '#'.

The model has these modules:

- `Wrappers` (wrappers.dfy): `Option`.
- `Text` (text.dfy): JavaScript's `split` with one character, `join`, and `trim`.
- `Host` (host.dfy): the Obsidian host as a class.
  - It keeps a log of the plugin's calls that change something or look up a link, and the set of directories that exist.
  - `mkdir` is recursive, as src/util.ts:54 says: it adds the path and every ancestor of it to that set, and is logged. `exists` only reads the set and is not logged.
  - Link resolution is a function fixed when the host is built.
- `PathUtil` (path_util.dfy): `path.parse`, `path.join`, and `createDirectory` (src/util.ts).
  - `normalizePath` does what its documentation says: `\` becomes `/`, runs of `/` collapse, and a trailing `/` is dropped.
  - The regular expression of `path.parse` is an automaton, searched from the left as `String.prototype.match` does.
  - `createDirectory` is a method over the host. Its directory loop is proved against `Missing`, the list of paths to create, and the directories it leaves are `Made` of that list: each path and its ancestors.
- `FolderPicker` (folder_picker.dfy): the `ChooseFolderModal` class with its fields and event methods.
  - Each event method is proved to be one `Step` of a pure session model.
  - The promise of `open()` is the `result` field. It is `None` while unsettled.
- `Plugin` (plugin.dfy): the commands of src/main.ts.
  - Each is a method over the host whose log is proved equal to a pure description: `RenameEffects` or `MoveEffects`.
  - The picker's outcome is a parameter `choice`. It is `None` when the modal is dismissed, so the promise never settles and nothing after `await` runs.
  - `isIosApp` stands for `Platform.isIosApp`.
- `LegacyPlugin` (legacy_plugin.dfy): the first revision's `normalize` and `renameFileOrLink`.
  - NFC is a function parameter.
  - The lemmas about `normalize`'s result assume only the laws in `NfcLaws`: NFC is idempotent, it creates neither U+00A0 nor '#', and it normalizes the two sides of a '#' independently.

Where the documentation and the code disagree, the model follows the code. `path.parse`'s examples at src/util.ts:19-29 give `dir: '/one/two'` for `'/one/two/file name'`. The regular expression at src/util.ts:32 cannot match a separator at the start of the dir group, so the leftmost match begins after the leading `/`, and the dir group keeps its trailing separator. `ParseDropsLeadingSeparator` shows this on a small path.

## Model

| member | source | states |
|---|---|---|
| Text.Split | src/main.ts:182 | `split(c)` yields at least one piece and no piece holds `c`. The first piece is a prefix of the input that is followed by `c` when it is shorter. With no `c` in the input, the only piece is the input. |
| Text.JoinWith | src/util.ts:88 | The join of no parts is empty. Otherwise it starts with the first part, and with two or more parts the separator follows that part. |
| Text.JoinSplit | src/util.ts:85-88 | Joining the pieces of a split with the separator gives the string back. |
| Text.SplitJoin | src/util.ts:85-88 | Splitting a join of separator-free pieces gives the pieces back. |
| Text.SplitPrefix | src/main.ts:182 | Splitting `p + c + q`, with no `c` in `p`, yields `p` and then the pieces of `q`. |
| Text.JoinWithSnoc | src/util.ts:88 | Joining a list extended by `x` is the earlier join, then the separator, then `x`. |
| Text.TrimStartSpec | src/util.ts:47 | What trimming the start removes is whitespace, the rest is a suffix of the input, and that suffix does not start with whitespace. |
| Text.TrimEndSpec | src/util.ts:47 | What trimming the end removes is whitespace, the rest is a prefix of the input, and that prefix does not end with whitespace. |
| Text.TrimSpec | src/util.ts:47 | `trim()` returns the slice of the input after its leading whitespace. Only whitespace follows the slice, and the slice neither starts nor ends with whitespace. |
| Text.Trim | src/util.ts:47 | `trim()` never lengthens a string. |
| Text.TrimIdempotent | src/util.ts:47 | Trimming twice is trimming once. |
| Text.TrimOfTrimmed | src/util.ts:87 | A string that neither starts nor ends with whitespace is its own trim. |
| Host.AncestorsSpec | src/util.ts:54 | A recursive `mkdir(p)` leaves in place `p` itself and exactly the non-empty prefixes of `p` that a `/` follows. |
| Host.AncestorsOfAncestor | src/util.ts:54 | The ancestors of an ancestor are ancestors too, so a recursive `mkdir` leaves no gap in the chain. |
| Host.MkdirKeepsAncestors | src/util.ts:54 | A recursive `mkdir` keeps a vault in which the ancestors of every directory exist. |
| Host.Host.constructor | src/main.ts:151-157 | A new host has an empty log and the given directories, root, active file and resolver. |
| Host.Host.Call | src/main.ts:66-68 | A host call is appended to the log and leaves the directories alone. |
| Host.Host.GetFirstLinkpathDest | src/main.ts:154-157 | The lookup returns the resolver's answer and is logged. |
| Host.Host.Exists | src/util.ts:65 | `exists` is true exactly for directories present, and changes nothing. |
| Host.Host.Mkdir | src/util.ts:71 | `mkdir` is logged, and afterwards the directories are the earlier ones plus the path and all its ancestors: the call is recursive. |
| PathUtil.ToSlashes | src/util.ts:41 | Position by position, a `\` becomes `/` and every other character stays. So no `\` is left, the length is kept, and so is whether the first or last character is a separator. |
| PathUtil.CollapseSlashes | src/util.ts:42 | The result has no doubled `/`, and its first and last characters are those of the input. |
| PathUtil.CollapseRemovesOnlySlashes | src/util.ts:42 | Collapsing removes only `/` characters. |
| PathUtil.CollapseAppend | src/util.ts:42 | Collapsing distributes over a join point where the right side does not start with `/`. |
| PathUtil.NormalizePath | src/util.ts:40-43 | The result has only `/` separators, none doubled and none trailing, and keeps every non-separator character in order. |
| PathUtil.NormalizedIsFixpoint | src/util.ts:40-43 | Normalization leaves a path unchanged exactly when the path already has the normalized shape. |
| PathUtil.NormalizePathIdempotent | src/util.ts:40-43 | Normalizing twice is normalizing once. |
| PathUtil.TrimAll | src/util.ts:46-47 | Entry i is the trim of argument i, and there are as many entries as arguments. |
| PathUtil.Join | src/util.ts:45-50 | `path.join` yields a normalized path whose non-separator characters are those of the trimmed parts joined with `/`. |
| PathUtil.JoinOfTwo | src/util.ts:45-50 | The non-separator characters of `path.join(a, b)` are those of the trimmed `a` followed by those of the trimmed `b`. |
| PathUtil.NameStart | src/util.ts:32 | The name group starts just after the last separator: nothing after it is a separator. |
| PathUtil.MatchStart | src/util.ts:32-33 | Returns the leftmost start from which the dir group reaches the name group; every earlier start fails. |
| PathUtil.RegexGroups | src/util.ts:32-34 | The name holds no separator, the dir is empty or ends in a separator, and `dir + name` is a suffix of the input. |
| PathUtil.RegexGroupsAreLeftmostMatch | src/util.ts:32-33 | The groups are those of the leftmost match. At that start the dir group can end in only one place, and no earlier start matches. |
| PathUtil.Parse | src/util.ts:31-36 | The name is never empty and holds no separator, and the dir is empty or ends in a separator. Unless the name is "Untitled", `dir + name` is a suffix of the input. `parse("")` gives `{dir: "", name: "Untitled"}`. |
| PathUtil.NameStartAfterSep | src/util.ts:32 | After a separator followed by a separator-free name, the name group starts right after that separator. |
| PathUtil.JoinKeepsName | src/util.ts:31-50 | Parsing `path.join(dir, name)` gives back `name`, for a non-empty name without separators and without whitespace at either end. |
| PathUtil.JoinTrimsName | src/util.ts:31-50 | For any name whose trim is non-empty and separator-free, parsing `path.join(dir, name)` gives the trimmed name, not the name. |
| PathUtil.NormalizeBeforeName | src/util.ts:40-43 | Normalizing a front ending in a separator, followed by a separator-free name, gives a normalized front ending in `/` followed by the name unchanged. |
| PathUtil.ParseDropsLeadingSeparator | src/util.ts:19-32 | `parse("/a/b")` is `{dir: "a/", name: "b"}`: the leading separator is not in the match. |
| PathUtil.NonBlankSpec | src/util.ts:87 | The filter keeps exactly the parts that are not blank after trimming: every kept part is an input part that is not blank, and every input part that is not blank is kept. When none is blank, the list is unchanged. |
| PathUtil.NonBlankAppend | src/util.ts:87 | Filtering a concatenation is filtering each side, one after the other, so the kept parts stay in their order. |
| PathUtil.Components | src/util.ts:85-87 | Every component is non-empty and free of `/`. |
| PathUtil.ComponentsSpec | src/util.ts:85-87 | The components are exactly the `/`-separated pieces of the path that are not blank. |
| PathUtil.Prefixes | src/util.ts:88 | There is one sub-path per component. |
| PathUtil.PrefixesChain | src/util.ts:88 | Entry 0 is the first component. Entry k+1 is entry k, then `/`, then component k+1, so each entry is a proper prefix of the next. |
| PathUtil.SubPaths | src/util.ts:85-88 | There is one sub-path per non-blank component, and the last one joins all components with `/`. |
| PathUtil.SubPathsEndAtPath | src/util.ts:85-88 | When no component is blank, the last sub-path is the path itself. |
| PathUtil.SubPathsAfterSlash | src/util.ts:85-88 | For `/q` with no blank part in `q`, the leading empty part is dropped and the last sub-path is `q`. |
| PathUtil.IndexOf | src/util.ts:91 | Returns the position of the first occurrence. |
| PathUtil.Missing | src/util.ts:91-96 | The loop plans at most one `mkdir` per sub-path. |
| PathUtil.MadeSpec | src/util.ts:94 | After recursive `mkdir`s of a list of paths, each path and all its ancestors exist, and every directory made is an ancestor of one of the paths. |
| PathUtil.MadeSnoc | src/util.ts:94 | One more `mkdir` adds its path and that path's ancestors to what was made. |
| PathUtil.MissingSpec | src/util.ts:91-96 | The loop creates only sub-paths that do not exist, never one that an earlier recursive `mkdir` of the loop created, in list order (shortest first). Afterwards every sub-path exists, made itself or as an ancestor. |
| PathUtil.MissingPlansAbsent | src/util.ts:92-94 | The loop calls `mkdir` only on sub-paths from its list that did not exist. |
| PathUtil.MissingNeverRemakes | src/util.ts:92-94 | The loop never calls `mkdir` on a path that one of its earlier recursive `mkdir`s created. |
| PathUtil.MissingCovers | src/util.ts:91-96 | Once the loop has run, every sub-path exists: it existed, or some `mkdir` of the loop created it. |
| PathUtil.MissingInOrder | src/util.ts:91-96 | The `mkdir` calls come in the order of the sub-path list. |
| PathUtil.MissingPlansUnmade | src/util.ts:91-96 | When no sub-path is an ancestor of an earlier one, every sub-path that did not exist gets its own `mkdir`. |
| PathUtil.MissingStep | src/util.ts:92-95 | One iteration: `mkdir` runs exactly when the sub-path neither existed nor was created earlier, itself or as an ancestor of an earlier path. |
| PathUtil.MissingWhenAllExist | src/util.ts:91-96 | When every sub-path exists, the loop creates nothing. |
| PathUtil.Rooted | src/util.ts:92 | There is one rooted path per sub-path, and entry i is `path.join(root, subPaths[i])`. |
| PathUtil.RootedSubPaths | src/util.ts:85-92 | The paths the iOS loop checks: one per non-blank component of the normalized directory path, entry i the root joined with sub-path i, each a normalized path. |
| PathUtil.RootedSubPathsNotAncestors | src/util.ts:85-94 | No path the iOS loop visits is an ancestor of one it visited before, so an earlier recursive `mkdir` never creates a later path. |
| PathUtil.LastRooted | src/util.ts:85-92 | The last path the iOS loop visits is the root joined with the last sub-path. |
| PathUtil.CreateDirectoryPlan | src/util.ts:58-96 | No path handed to `mkdir` exists already. |
| PathUtil.MissingAvoidsExisting | src/util.ts:91-95 | The loop never plans a `mkdir` of a path that exists. |
| PathUtil.DesktopCreatesDirectoryOnce | src/util.ts:69-73 | On desktop, a missing directory gets exactly one `mkdir`, of its normalized path. |
| PathUtil.MobileCreatesMissingSubPaths | src/util.ts:85-96 | On iOS, `mkdir` runs only for rooted sub-paths that do not exist, never for one an earlier call created, shortest first. Every rooted sub-path that did not exist gets its own `mkdir`. |
| PathUtil.DesktopPlan | src/util.ts:69-72 | On desktop, a missing directory gets one `mkdir` of its normalized path, which makes exactly that path and its ancestors. |
| PathUtil.FallThroughPlan | src/util.ts:69-96 | On iOS, or when the directory exists, the calls are those of the sub-path loop. |
| PathUtil.DesktopCreatesParents | src/util.ts:54-72 | On desktop under root `/` with nothing existing, `createDirectory("a/b")` is one `mkdir` of `/a/b`, which also makes `/a`; creating `a` afterwards calls nothing. |
| PathUtil.ExistingOneComponent | src/util.ts:64-96 | Under root `/`, an existing directory with a single component gets no `mkdir` on either platform. |
| PathUtil.NotMadeWhenLonger | src/util.ts:94 | A path longer than every path handed to `mkdir` is not created by those recursive calls. |
| PathUtil.AncestorsOfTwo | src/util.ts:54 | The ancestors of `/a/b`, for parts without `/`, are `/a` and `/a/b`. |
| PathUtil.DesktopCreatesDirectory | src/util.ts:64-73 | On desktop, the directory `join(root, dir)` exists after its plan has run, whether it existed before or not. |
| PathUtil.NormalizeAfterSlash | src/util.ts:40-43 | One more leading `/` in front of a normalized path that starts with `/` normalizes away. |
| PathUtil.JoinUnderSlashRoot | src/util.ts:45-50 | `join("/", q)` for a trimmed `q` not starting with `/`, whose `/q` is normalized, is `/q`. |
| PathUtil.SlashRootedLast | src/util.ts:85-94 | Under the vault root `/`, the last path the iOS loop visits is the directory `join("/", dir)` itself. This holds when no part of the path after the root is blank and that path has no whitespace at either end. |
| PathUtil.MobileCreatesDirectory | src/util.ts:64-96 | On iOS, under the vault root `/`, the directory `join("/", dir)` exists after its plan has run. This holds when no part of the path after the root is blank and that path has no whitespace at either end. |
| PathUtil.ComponentsWithBlankPart | src/util.ts:85-87 | The components of `/a/w/b` with a blank `w` are `a` and `b`: the blank part is filtered out. |
| PathUtil.RootedSubPathsWithBlankPart | src/util.ts:85-92 | For `/a/w/b` with a blank `w`, the iOS loop visits `/a` and `/a/b` only, never the path itself. |
| PathUtil.MobileWithBlankPart | src/util.ts:85-96 | On iOS with nothing existing, a directory whose joined path is `/a/w/b` with a blank `w` gets `mkdir` of `/a` and `/a/b` only. |
| PathUtil.MobileTrimsLastPart | src/util.ts:64-94 | On iOS with root `/`, `join("/", "a /")` is `/a `, but the plan is only `/a`, and its `mkdir` does not make `/a `: `path.join` trims each sub-path, so the directory itself is never created. |
| PathUtil.MobileWithOneComponent | src/util.ts:85-96 | On iOS with nothing existing, a directory whose joined path has a single component `c` gets one `mkdir`, of `join("/", c)`. |
| PathUtil.JoinUnderSlashRootDropsSlash | src/util.ts:45-50 | `join("/", q + "/")` is `/q` when `/q` is normalized: the trailing separator is dropped. |
| PathUtil.JoinTrimmedUnderSlashRoot | src/util.ts:45-50 | `join("/", c)` is `/a` when `c` trims to `a` and `/a` is normalized. |
| PathUtil.NormalizeDropsTrailing | src/util.ts:40-43 | Normalizing `/w/` for a normalized `w` that starts with `/` gives `w`. |
| PathUtil.ComponentsOfOne | src/util.ts:85-87 | The only component of `/c`, for a non-blank `c` without `/`, is `c`. |
| PathUtil.MobileSkipsBlankPart | src/util.ts:85-96 | On iOS with root `/`, `join("/", "a/ /b")` is `/a/ /b`, but the plan is `/a`, `/a/b`, and their `mkdir`s do not make `/a/ /b`: the directory itself is never created. |
| PathUtil.ExistingDirectoryCreatesNothing | src/util.ts:65-96 | In a vault whose directories are closed under ancestors, creating an existing directory creates nothing on either platform. |
| PathUtil.MkdirEffects | src/util.ts:94 | Each planned path becomes one `mkdir` call, in order. |
| PathUtil.Elements | src/util.ts:94 | Returns the set of paths a plan holds. |
| PathUtil.MkdirEffectsSnoc | src/util.ts:94 | One more planned path adds one `mkdir` at the end. |
| PathUtil.CreateEachSubPath | src/util.ts:90-96 | The loop's `mkdir` calls are exactly `Missing` of the rooted sub-paths, and the directories gained are exactly those paths and their ancestors. |
| PathUtil.CreateDirectory | src/util.ts:58-97 | `createDirectory`'s calls are exactly the `mkdir`s of `CreateDirectoryPlan`, and the directories gained are exactly the planned paths and their ancestors. |
| FolderPicker.FirstVisit | src/chooseFolderModal.ts:38 | Returns the position where the traversal first visits a folder. |
| FolderPicker.CollectSpec | src/chooseFolderModal.ts:38-42 | The pushes keep the list free of duplicates. They add exactly the visited folders, never a file, in first-visit order. |
| FolderPicker.Reversed | src/chooseFolderModal.ts:46 | Reversal maps position i to position n-1-i. |
| FolderPicker.SnapshotSpec | src/chooseFolderModal.ts:37-47 | The snapshot holds each visited folder once and nothing else, in reverse first-visit order. |
| FolderPicker.Collect | src/chooseFolderModal.ts:38-42 | The pushes only extend the list, by at most one folder per visited node. |
| FolderPicker.Snapshot | src/chooseFolderModal.ts:37-47 | The snapshot has at most one entry per visited node. |
| FolderPicker.SnapshotOrder | src/chooseFolderModal.ts:46 | Reversing a duplicate-free list in increasing first-visit order gives a duplicate-free list in decreasing first-visit order. |
| FolderPicker.Chosen | src/chooseFolderModal.ts:153-157 | The value handed to the resolver is the captured text when the last rendering found no suggestion, and the chosen folder's path otherwise. |
| FolderPicker.Step | src/chooseFolderModal.ts:81-157 | No event changes the folder list. The result changes only when `open()` resets it or `onChooseItem` delivers the chosen value. |
| FolderPicker.Run | src/chooseFolderModal.ts:81-83 | The folder list is a snapshot that a whole session of events leaves unchanged. |
| FolderPicker.DismissDeliversNothing | src/chooseFolderModal.ts:140-157 | A session with no `onChooseItem` leaves the promise unsettled. |
| FolderPicker.ResultSettlesOnce | src/chooseFolderModal.ts:140-157 | Once settled, the promise keeps its first value until the modal is reopened. |
| FolderPicker.RunKeepsCapture | src/chooseFolderModal.ts:95-121 | Typing and key presses leave the no-suggestion flag, the captured path and the result alone. |
| FolderPicker.RunAppend | src/chooseFolderModal.ts:81-157 | Running two event sequences one after the other is running their concatenation. |
| FolderPicker.ChooseDeliversTypedPath | src/chooseFolderModal.ts:95-157 | After "no suggestion", choosing delivers the input text as it was at that moment, unnormalized. |
| FolderPicker.ChooseDeliversFolderPath | src/chooseFolderModal.ts:85-157 | After a row was rendered, choosing delivers the chosen folder's path. |
| FolderPicker.ChooseFolderModal.constructor | src/chooseFolderModal.ts:26-47 | A new modal holds the snapshot of the visited folders, is not open, and has delivered nothing. |
| FolderPicker.ChooseFolderModal.InitFolders | src/chooseFolderModal.ts:37-47 | `initFolders` pushes the visited folders not already listed, then reverses the list in place, and touches no other field. |
| FolderPicker.ChooseFolderModal.GetItems | src/chooseFolderModal.ts:81-83 | Returns the snapshot list unchanged. |
| FolderPicker.ChooseFolderModal.GetItemText | src/chooseFolderModal.ts:85-88 | Clears the no-suggestion flag and returns the folder's path. |
| FolderPicker.ChooseFolderModal.OnNoSuggestion | src/chooseFolderModal.ts:95-98 | Sets the flag and captures exactly the current input text. |
| FolderPicker.ChooseFolderModal.InputListener | src/chooseFolderModal.ts:111-121 | Tab with a selected row overwrites the input with the row's text and suppresses the default action. Anything else leaves the input unchanged. |
| FolderPicker.ChooseFolderModal.Open | src/chooseFolderModal.ts:140-146 | `open()` installs a fresh, unsettled promise. |
| FolderPicker.ChooseFolderModal.OnChooseItem | src/chooseFolderModal.ts:153-157 | Delivers the captured path when there was no suggestion, and the folder's path otherwise. A settled promise ignores the call. |
| Plugin.GetPath | src/main.ts:181-183 | `getPath` returns the part of the normalized text before its first '#': a '#'-free prefix followed by '#' when shorter. It is all of the normalized text exactly when that text has no '#'. |
| Plugin.GetClickableToken | src/main.ts:168-173 | The token considered is the one at the editor's cursor position. |
| Plugin.LinkTarget | src/main.ts:149-158 | The file an internal link resolves to is the resolver's answer to exactly the one lookup that `LinkLookup` logs. |
| Plugin.LinkLookup | src/main.ts:79-81 | A link is looked up exactly when the token is an internal link. |
| Plugin.MoveTarget | src/main.ts:133-136 | The target is a normalized path whose non-separator characters are those of the trimmed folder, then those of the trimmed file name. |
| Plugin.Perform | src/main.ts:54-141 | An action makes no call exactly when it is `NoAction`, and never looks up a link. A move opens the picker first, and a move into a chosen folder renames the file to the target last. |
| Plugin.RenameEffects | src/main.ts:54-90 | Rename's calls start with a link lookup exactly when the token is an internal link, and that lookup is of `getPath` of the link text. |
| Plugin.MoveEffects | src/main.ts:100-141 | Move's calls start with a link lookup exactly when the token is an internal link, and that lookup is of `getPath` of the link text. |
| Plugin.RenameAction | src/main.ts:54-90 | Rename picks one action, each in exactly its case. A native title edit happens iff there is no token and the command is not link-only. A selection of exactly the token's span happens iff the link is external. A rename prompt on the resolved file happens iff the link is internal and resolves. |
| Plugin.MoveAction | src/main.ts:100-141 | Move picks one action, each in exactly its case. The native move happens iff there is no token and the command is not link-only. A move of the resolved file into the chosen folder happens iff the link is internal and resolves. External links lead to nothing. |
| Plugin.RenameWithoutToken | src/main.ts:63-71 | With no token, rename runs "workspace:edit-file-title" once, or nothing when link-only, and looks up no link. |
| Plugin.MoveWithoutToken | src/main.ts:109-115 | With no token, move runs "file-explorer:move-file" once, or nothing when link-only. |
| Plugin.RenameExternalLink | src/main.ts:74-78 | On an external link, rename focuses the editor and then selects exactly `[start, end]`, with no file operation. |
| Plugin.MoveExternalLink | src/main.ts:118-120 | On an external link, move makes no call: no picker, no `mkdir`, no rename. |
| Plugin.RenameInternalLink | src/main.ts:79-86 | On an internal link, rename looks up the link, then prompts once for the resolved file, or stops. |
| Plugin.MoveUnresolvedLink | src/main.ts:121-124 | An unresolvable internal link stops move after the lookup: no picker, no `mkdir`, no rename. |
| Plugin.MovePickerDismissed | src/main.ts:126-129 | If the picker is dismissed, only the lookup and the picker happen. |
| Plugin.MoveToChosenFolder | src/main.ts:121-137 | With folder D chosen for file F, every `mkdir` of the directory comes before the single rename of F, which is the last call. |
| Plugin.TransferOfChosenFolder | src/main.ts:132-135 | Proof step of `MoveInternalLink`: the transfer of a move of F into D unfolds to `createDirectory(D)`'s plan and the target `join(D, F.name)`. |
| Plugin.PerformAtMostOneFileOperation | src/main.ts:54-141 | The calls of any one action touch at most one file. |
| Plugin.LookupsThenAtMostOneFileOperation | src/main.ts:79-86 | Link lookups in front of an action add no file operation. |
| Plugin.AtMostOneFileOperationPerCommand | src/main.ts:54-141 | Every rename and every move touches at most one file, whatever the token, flag, resolver and picker outcome. |
| Plugin.LookupsThenNoNativeCommand | src/main.ts:73-89 | An action that is not a native command runs none, even after link lookups. |
| Plugin.LinkOnlyRunsNoNativeCommand | src/main.ts:63-71 | The link-only variants never run a native command. |
| Plugin.MoveKeepsFileName | src/main.ts:133-136 | A file whose name has no separator and no whitespace at either end keeps its name: `path.parse` of the target reads back `F.name`. |
| Plugin.MoveTrimsFileName | src/main.ts:133-136 | The file " a.md" moved into "d" is named "a.md": `path.join` trims the name. |
| Plugin.DismissedPickerMovesNothing | src/main.ts:121-137 | Whatever the token, if the picker session has no choice, move creates no directory and renames nothing. |
| Plugin.ChosenFolderLog | src/main.ts:127-136 | Proof step of `MoveInternalLink`: a log extended by the lookup, the picker, the planned `mkdir`s and the rename is the log extended by the lookup and `Perform` of the move. |
| Plugin.InternalMoveEffects | src/main.ts:117-140 | For an internal link, the link-only flag does not matter: move is the lookup, then the action. |
| Plugin.ContextAwareRenamePlugin.constructor | src/main.ts:12-13 | The plugin runs against the given host. |
| Plugin.ContextAwareRenamePlugin.GetLinkTFile | src/main.ts:149-159 | `getLinkTFile` resolves `getPath(text)` from the active file, logs that one lookup, and changes no directory. |
| Plugin.ContextAwareRenamePlugin.RenameFileOrLink | src/main.ts:54-90 | Rename's calls are exactly `RenameEffects` of the token under the cursor, and no directory changes. |
| Plugin.ContextAwareRenamePlugin.MoveIntoFolder | src/main.ts:132-136 | `createDirectory` completes, with exactly its planned `mkdir`s, before the one rename to `join(D, F.name)`. The directories gained are exactly the planned paths and all their ancestors. |
| Plugin.ContextAwareRenamePlugin.MoveInternalLink | src/main.ts:121-137 | The internal-link handler makes the lookup and then `Perform`s the move decision. The directories gained are exactly the planned paths and all their ancestors. |
| Plugin.ContextAwareRenamePlugin.MoveFileOrLink | src/main.ts:100-141 | Move's calls are exactly `MoveEffects` of the token, flag and picker outcome. The directories gained are exactly the planned paths and all their ancestors. |
| LegacyPlugin.FoldNbsp | main.ts:110-112 | Every U+00A0 becomes a space. Length and all other characters are unchanged. |
| LegacyPlugin.FoldNbspSpec | main.ts:110-112 | No U+00A0 is left after folding, and a string without one is unchanged. |
| LegacyPlugin.Normalize | main.ts:108-120 | `path + subpath` is the folded NFC text. The path has no '#'. The subpath is empty or starts with '#', and it is empty exactly when the text has no '#'. |
| LegacyPlugin.NormalizedPathHasNoNbsp | main.ts:108-119 | Under NFC's laws, no U+00A0 is left in the path or the subpath. |
| LegacyPlugin.PathExtractionIdempotent | main.ts:108-119 | Under NFC's laws, normalizing the extracted path again gives the same path. |
| LegacyPlugin.NormalizeOfPlainPath | main.ts:108-119 | Text already folded, in NFC and free of '#', is its own path and has an empty subpath. |
| LegacyPlugin.LinkPathOf | main.ts:84 | The path that is resolved is a '#'-free prefix of the folded NFC text, followed by '#' when it is shorter. |
| LegacyPlugin.LinkLookup | main.ts:84-91 | Only internal links are looked up, and the looked-up path never holds '#'. |
| LegacyPlugin.RenameAction | main.ts:67-99 | The title edit happens iff there is no token. The rename prompt on the resolved file happens iff the token's type is "internal-link" and it resolves. Nothing is selected or moved. |
| LegacyPlugin.RenameEffects | main.ts:67-99 | The first revision's calls start with a link lookup exactly when the token's type is "internal-link", and that lookup is of the normalized path. |
| LegacyPlugin.RenameRouting | main.ts:71-98 | With no token, "workspace:edit-file-title" runs once. A token of any other type than "internal-link" has no effect. An unresolved link leaves only the lookup. A resolved link gets one `promptForFileRename`. |
| LegacyPlugin.RenameAtMostOneFileOperation | main.ts:67-99 | The first revision touches at most one file per command, and never moves or creates anything. |
| LegacyPlugin.LegacyRenamePlugin.constructor | main.ts:42-43 | The plugin runs against the given host and NFC. |
| LegacyPlugin.LegacyRenamePlugin.RenameFileOrLink | main.ts:67-99 | The first revision's calls are exactly `RenameEffects` of the token under the cursor, and no directory changes. |

## Left out

- Obsidian's host APIs are modelled only through the host class. `executeCommandById`, `focus`, `setSelection`, `promptForFileRename` and `renameFile` are log entries. `getFirstLinkpathDest` is a fixed resolver function. `exists` and `mkdir` act on a set of paths, and `mkdir` adds the path and its ancestors. The host's own link resolution and fuzzy ranking are not modelled.
- The real `normalizePath` also strips leading slashes, folds non-breaking spaces and applies NFC. The model does only what its documentation at src/util.ts:39-43 lists.
- NFC itself is not modelled (no Unicode tables). `LegacyPlugin` takes it as a parameter, and the lemmas about `normalize`'s result (`NormalizedPathHasNoNbsp`, `PathExtractionIdempotent`) assume `NfcLaws`.
- Asynchrony is not modelled: `await` is plain sequencing.
  - The internal-link handler of src/main.ts:121-137 is not awaited. It runs to completion within the call.
  - The picker's promise is the parameter `choice`.
  - A promise that never settles is `choice == None`, after which nothing runs.
- Plugin.ContextAwareRenamePlugin.MoveFileOrLink: the picker is not opened as a `ChooseFolderModal` inside the method. Its outcome comes in as `choice`. `Plugin.DismissedPickerMovesNothing` ties a `FolderPicker` session with no choice to "no mkdir, no rename".
- Token types other than the two enum values cannot occur in src/main.ts. There, `linkTypes[token.type]()` would throw. The first revision's string type is modelled in full.
- `this.folders.contains(file)` compares object identity. The model compares folder values, so two distinct folder objects with equal path and name count as one.
- `Vault.recurseChildren` is its visiting order, given as a sequence of nodes.
- The DOM and UI are not modelled. This covers `initUI`, `initChooseFolderItem`, placeholder and instruction texts, the result container's child removal and appends, and `document.querySelector`, whose selected row's text enters `InputListener` as a parameter.
- Listener registration in `onOpen`/`onClose` is not modelled. `onClose` removes a freshly bound function, so the listener added by `onOpen` is never removed.
- Before the first `getItemText` or `onNoSuggestion`, `noSuggestion` and `newDirectoryPath` are `undefined`. The model starts them as `false` and `""`, which `onChooseItem` treats alike.
- Typing into the modal's input is the environment event `Input`. It has no method of its own.
- Command registration in `onload`, `onunload` and the unused `view` parameters are not modelled.
- `isIosApp` stands for `Platform.isIosApp`. The vault root's path is the host's `rootPath`. Obsidian's vault root has the path `/`, and the iOS lemmas about a whole directory are stated for that root.
- Host.Host.Mkdir: recursive on both platforms, as src/util.ts:54 documents. The source does not show whether the iOS adapter creates missing parents. The iOS loop hands every missing level to `mkdir` itself, so its plan is the same either way (`MobileCreatesMissingSubPaths`).
- PathUtil.MobileCreatesDirectory: stated only for a path after the root with no blank part and no whitespace at either end, because on iOS the source fails to create any other directory (see Findings). PathUtil.SlashRootedLast has the same conditions.
- PathUtil.JoinKeepsName: holds only for a name without whitespace at either end, because `path.join` trims its parts (see Findings). It is proved for the stand-in `normalizePath` that neither folds non-breaking spaces nor applies NFC.
- Plugin.MoveKeepsFileName: holds only for a file name without whitespace at either end, for the same reason, and under the same stand-in `normalizePath`.
- FolderPicker.ChooseFolderModal.OnChooseItem: requires `isOpen`. Called before `open()`, the source calls `promiseResolver` while it is still undefined (src/chooseFolderModal.ts:24, 154) and throws. The method does not model that throw, and `Step` treats such a choice as doing nothing.

## Findings

| source | as written | input that shows it | evidently intended | confidence | as-written member | corrected member |
|---|---|---|---|---|---|---|
| src/main.ts:133-136 | The move target is `path.join(folder, file.name)`, and `path.join` (src/util.ts:45-49) trims every part, so whitespace at either end of the file name is lost. | The file " a.md" moved into "d" becomes "d/a.md". | A moved file keeps its name. | not executed | Plugin.MoveTrimsFileName | Plugin.MoveKeepsFileName |
| src/util.ts:85-96 | On iOS, blank parts are filtered out of the sub-path list before the sub-paths are built, so a directory with a blank part is never created. | `createDirectory(vault, "a/ /b")` with root "/" creates "/a" and "/a/b", not "/a/ /b". | The directory `join(root, dir)` exists afterwards, as on desktop. | not executed | PathUtil.MobileSkipsBlankPart | PathUtil.MobileCreatesDirectory |
| src/util.ts:92-94 | On iOS, each sub-path is joined to the root with `path.join`, which trims it, while the whole directory `directoryPath` (src/util.ts:64) trims only `dir`. So whitespace at the end of the path after the root is lost, and that directory is never created. | `createDirectory(vault, "a /")` with root "/": `directoryPath` is "/a ", but only "/a" is created. | The directory `join(root, dir)` exists afterwards, as on desktop. | not executed | PathUtil.MobileTrimsLastPart | PathUtil.MobileCreatesDirectory |

