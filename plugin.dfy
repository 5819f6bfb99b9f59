// The plugin's two editor commands (src/main.ts): "rename file or link" and "move file or
// link", each also registered in a link-only variant. Both look at the clickable token under
// the cursor and pick exactly one action: a native command, a text selection, a rename
// prompt, a folder pick followed by directory creation and a move, or nothing.

module Plugin {
  import opened Wrappers
  import opened Text
  import opened Host
  import opened PathUtil
  import FolderPicker

  const EditFileTitle := "workspace:edit-file-title"
  const MoveFileCommand := "file-explorer:move-file"

  /** `getClickableToken(editor)`: the token at the cursor, if any. */
  function GetClickableToken(editor: Editor): (r: Option<ClickableToken>)
    ensures r == editor.tokenAt(editor.cursor)
  {
    editor.tokenAt(editor.cursor)
  }

  /**
   * `getPath(value)`: the part of the normalized link text before its first '#', that is,
   * without the heading or block reference.
   */
  function GetPath(value: string): (r: string)
    ensures '#' !in r
    ensures r <= NormalizePath(value)
    ensures |r| < |NormalizePath(value)| ==> NormalizePath(value)[|r|] == '#'
    ensures '#' !in NormalizePath(value) <==> r == NormalizePath(value)
  {
    Split(NormalizePath(value), '#')[0]
  }

  /** What a command ends up doing besides resolving the link. */
  datatype Action =
    | NativeCommand(id: string)                           // executeCommandById
    | SelectLink(start: Position, end: Position)           // focus, then setSelection
    | PromptRename(file: TFile)                            // promptForFileRename
    | MoveToFolder(file: TFile, folder: Option<string>)    // picker, then mkdir and renameFile
    | NoAction

  predicate IsInternal(token: Option<ClickableToken>)
  {
    token.Some? && token.value.kind == InternalLink
  }

  /** The lookup `getLinkTFile` performs: on internal links only. */
  function LinkLookup(token: Option<ClickableToken>, sourcePath: string): (r: seq<Effect>)
    ensures r != [] <==> IsInternal(token)
  {
    if IsInternal(token) then [LookupLink(GetPath(token.value.text), sourcePath)] else []
  }

  /** The file an internal-link token resolves to: the answer to the lookup `LinkLookup` logs. */
  function LinkTarget(token: Option<ClickableToken>, resolver: (string, string) -> Option<TFile>,
                      sourcePath: string): (r: Option<TFile>)
    requires IsInternal(token)
    ensures var l := LinkLookup(token, sourcePath);
            |l| == 1 && r == resolver(l[0].linkPath, l[0].sourcePath)
  {
    resolver(GetPath(token.value.text), sourcePath)
  }

  /** The decision of `renameFileOrLink`. */
  function RenameAction(token: Option<ClickableToken>, linkOnly: bool,
                        resolver: (string, string) -> Option<TFile>, sourcePath: string): (a: Action)
    ensures a.NativeCommand? <==> token == None && !linkOnly
    ensures a.NativeCommand? ==> a.id == EditFileTitle
    ensures a.SelectLink? <==> token.Some? && token.value.kind == ExternalLink
    ensures a.SelectLink? ==> a.start == token.value.start && a.end == token.value.end
    ensures a.PromptRename? <==> IsInternal(token) && LinkTarget(token, resolver, sourcePath).Some?
    ensures a.PromptRename? ==> Some(a.file) == LinkTarget(token, resolver, sourcePath)
    ensures !a.MoveToFolder?
  {
    match token
    case None => if linkOnly then NoAction else NativeCommand(EditFileTitle)
    case Some(t) =>
      match t.kind
      case ExternalLink => SelectLink(t.start, t.end)
      case InternalLink =>
        match resolver(GetPath(t.text), sourcePath)
        case None => NoAction
        case Some(f) => PromptRename(f)
  }

  /**
   * The decision of `moveFileOrLink`; `choice` is what the folder picker's promise
   * settles to, `None` when the picker is dismissed and the promise never settles.
   */
  function MoveAction(token: Option<ClickableToken>, linkOnly: bool,
                      resolver: (string, string) -> Option<TFile>, sourcePath: string,
                      choice: Option<string>): (a: Action)
    ensures a.NativeCommand? <==> token == None && !linkOnly
    ensures a.NativeCommand? ==> a.id == MoveFileCommand
    ensures a.MoveToFolder? <==> IsInternal(token) && LinkTarget(token, resolver, sourcePath).Some?
    ensures a.MoveToFolder? ==> Some(a.file) == LinkTarget(token, resolver, sourcePath) && a.folder == choice
    ensures !a.SelectLink? && !a.PromptRename?
  {
    match token
    case None => if linkOnly then NoAction else NativeCommand(MoveFileCommand)
    case Some(t) =>
      match t.kind
      case ExternalLink => NoAction
      case InternalLink =>
        match resolver(GetPath(t.text), sourcePath)
        case None => NoAction
        case Some(f) => MoveToFolder(f, choice)
  }

  /**
   * Where a file moved into `folder` ends up: `path.join(folder, file.name)`, a normalized
   * path that keeps, in order, every character of the trimmed folder and the trimmed
   * name except the separators.
   */
  function MoveTarget(folder: string, file: TFile): (r: string)
    ensures IsNormalized(r)
    ensures Unseparated(r) == Unseparated(Trim(folder)) + Unseparated(Trim(file.name))
  {
    JoinOfTwo(folder, file.name);
    Join([folder, file.name])
  }

  /**
   * What carrying out a move into the chosen folder takes: the paths `createDirectory`
   * hands to `mkdir`, and the file's new path.
   */
  datatype Transfer = Transfer(plan: seq<string>, target: string)

  /** The transfer an action needs, given the vault's directories, its root and the platform. */
  function TransferFor(a: Action, existing: set<string>, root: string, isIosApp: bool): Transfer
  {
    if a.MoveToFolder? && a.folder.Some?
    then Transfer(CreateDirectoryPlan(existing, root, a.folder.value, isIosApp), MoveTarget(a.folder.value, a.file))
    else Transfer([], [])
  }

  /**
   * The host calls that carry out an action, with `tr` as in `TransferFor`: none exactly
   * for `NoAction`, never a lookup, and a move into a chosen folder opens the picker first
   * and renames the file to the target last.
   */
  function Perform(a: Action, tr: Transfer): (r: seq<Effect>)
    ensures r == [] <==> a.NoAction?
    ensures forall i :: 0 <= i < |r| ==> !r[i].LookupLink?
    ensures a.MoveToFolder? ==> r[0] == OpenFolderPicker
    ensures a.MoveToFolder? && a.folder.Some? ==> r[|r| - 1] == RenameFile(a.file, tr.target)
  {
    match a
    case NativeCommand(id) => [ExecuteCommand(id)]
    case SelectLink(start, end) => [Focus, SetSelection(start, end)]
    case PromptRename(f) => [PromptForFileRename(f)]
    case MoveToFolder(f, None) => [OpenFolderPicker]
    case MoveToFolder(f, Some(d)) =>
      [OpenFolderPicker] + MkdirEffects(tr.plan) + [RenameFile(f, tr.target)]
    case NoAction => []
  }

  /**
   * Everything `renameFileOrLink` asks of the host: it starts with a link lookup exactly
   * for an internal link, and that lookup is of the link's path.
   */
  function RenameEffects(token: Option<ClickableToken>, linkOnly: bool,
                         resolver: (string, string) -> Option<TFile>, sourcePath: string): (r: seq<Effect>)
    ensures IsInternal(token) <==> |r| > 0 && r[0].LookupLink?
    ensures IsInternal(token) ==> r[0] == LookupLink(GetPath(token.value.text), sourcePath)
  {
    LinkLookup(token, sourcePath) + Perform(RenameAction(token, linkOnly, resolver, sourcePath), Transfer([], []))
  }

  /**
   * Everything `moveFileOrLink` asks of the host, with `tr` as in `TransferFor`: it starts
   * with a link lookup exactly for an internal link, and that lookup is of the link's path.
   */
  function MoveEffects(token: Option<ClickableToken>, linkOnly: bool,
                       resolver: (string, string) -> Option<TFile>, sourcePath: string,
                       choice: Option<string>, tr: Transfer): (r: seq<Effect>)
    ensures IsInternal(token) <==> |r| > 0 && r[0].LookupLink?
    ensures IsInternal(token) ==> r[0] == LookupLink(GetPath(token.value.text), sourcePath)
  {
    LinkLookup(token, sourcePath) + Perform(MoveAction(token, linkOnly, resolver, sourcePath, choice), tr)
  }

  // ---------------------------------------------------------------------------
  // The routing table
  // ---------------------------------------------------------------------------

  /** With no token, rename runs the native title editor once, and resolves no link. */
  lemma RenameWithoutToken(linkOnly: bool, resolver: (string, string) -> Option<TFile>, sourcePath: string)
    ensures RenameEffects(None, linkOnly, resolver, sourcePath)
            == if linkOnly then [] else [ExecuteCommand(EditFileTitle)]
  {
  }

  /** With no token, move runs the native move dialog once, and resolves no link. */
  lemma MoveWithoutToken(linkOnly: bool, resolver: (string, string) -> Option<TFile>, sourcePath: string,
                         choice: Option<string>, tr: Transfer)
    ensures MoveEffects(None, linkOnly, resolver, sourcePath, choice, tr)
            == if linkOnly then [] else [ExecuteCommand(MoveFileCommand)]
  {
  }

  /** On an external link, rename focuses the editor and then selects exactly the link. */
  lemma RenameExternalLink(t: ClickableToken, linkOnly: bool,
                           resolver: (string, string) -> Option<TFile>, sourcePath: string)
    requires t.kind == ExternalLink
    ensures RenameEffects(Some(t), linkOnly, resolver, sourcePath) == [Focus, SetSelection(t.start, t.end)]
  {
  }

  /** On an external link, move does nothing at all. */
  lemma MoveExternalLink(t: ClickableToken, linkOnly: bool,
                         resolver: (string, string) -> Option<TFile>, sourcePath: string,
                         choice: Option<string>, tr: Transfer)
    requires t.kind == ExternalLink
    ensures MoveEffects(Some(t), linkOnly, resolver, sourcePath, choice, tr) == []
  {
  }

  /**
   * On an internal link, rename resolves the link text without its '#' part against the
   * active file, and prompts to rename the file it resolves to, or does nothing more.
   */
  lemma RenameInternalLink(t: ClickableToken, linkOnly: bool,
                           resolver: (string, string) -> Option<TFile>, sourcePath: string)
    requires t.kind == InternalLink
    ensures var lookup := LookupLink(GetPath(t.text), sourcePath);
            RenameEffects(Some(t), linkOnly, resolver, sourcePath)
            == match resolver(GetPath(t.text), sourcePath)
               case None => [lookup]
               case Some(f) => [lookup, PromptForFileRename(f)]
  {
  }

  /** On an internal link that resolves to nothing, move stops after the lookup: no picker. */
  lemma MoveUnresolvedLink(t: ClickableToken, linkOnly: bool,
                           resolver: (string, string) -> Option<TFile>, sourcePath: string,
                           choice: Option<string>, tr: Transfer)
    requires t.kind == InternalLink && resolver(GetPath(t.text), sourcePath) == None
    ensures MoveEffects(Some(t), linkOnly, resolver, sourcePath, choice, tr)
            == [LookupLink(GetPath(t.text), sourcePath)]
  {
  }

  /** On a resolvable internal link, a dismissed picker leaves only the picker shown. */
  lemma MovePickerDismissed(t: ClickableToken, linkOnly: bool,
                            resolver: (string, string) -> Option<TFile>, sourcePath: string,
                            tr: Transfer)
    requires t.kind == InternalLink && resolver(GetPath(t.text), sourcePath).Some?
    ensures MoveEffects(Some(t), linkOnly, resolver, sourcePath, None, tr)
            == [LookupLink(GetPath(t.text), sourcePath), OpenFolderPicker]
  {
  }

  /**
   * On an internal link that resolves to `f`, once a folder is chosen the directory is
   * created and then `f` is renamed to the transfer's target, as the very last call.
   */
  lemma MoveToChosenFolder(t: ClickableToken, linkOnly: bool,
                           resolver: (string, string) -> Option<TFile>, sourcePath: string,
                           f: TFile, d: string, tr: Transfer)
    requires t.kind == InternalLink && resolver(GetPath(t.text), sourcePath) == Some(f)
    ensures MoveEffects(Some(t), linkOnly, resolver, sourcePath, Some(d), tr)
            == [LookupLink(GetPath(t.text), sourcePath), OpenFolderPicker]
               + MkdirEffects(tr.plan) + [RenameFile(f, tr.target)]
  {
    var lookup := LookupLink(GetPath(t.text), sourcePath);
    assert LinkLookup(Some(t), sourcePath) == [lookup];
    MoveActionOfResolved(t, linkOnly, resolver, sourcePath, f, d);
    PerformChosen(f, d, tr);
    ConsPair(lookup, OpenFolderPicker, MkdirEffects(tr.plan), RenameFile(f, tr.target));
  }

  /** An internal link that resolves to `f`, with `d` chosen, moves `f` into `d`. */
  lemma MoveActionOfResolved(t: ClickableToken, linkOnly: bool,
                             resolver: (string, string) -> Option<TFile>, sourcePath: string,
                             f: TFile, d: string)
    requires t.kind == InternalLink && resolver(GetPath(t.text), sourcePath) == Some(f)
    ensures MoveAction(Some(t), linkOnly, resolver, sourcePath, Some(d)) == MoveToFolder(f, Some(d))
  {
  }

  /** The calls of a move into a chosen folder: the picker, the `mkdir`s, the rename. */
  lemma PerformChosen(f: TFile, d: string, tr: Transfer)
    ensures Perform(MoveToFolder(f, Some(d)), tr) == [OpenFolderPicker] + MkdirEffects(tr.plan) + [RenameFile(f, tr.target)]
  {
  }

  lemma ConsPair(x: Effect, y: Effect, m: seq<Effect>, z: Effect)
    ensures [x] + ([y] + m + [z]) == [x, y] + m + [z]
  {
    assert [x] + ([y] + m) == [x, y] + m;
  }

  /**
   * The transfer of a move of `f` into `d`: the plan of `createDirectory(d)`, and the
   * target `join(d, f.name)`.
   */
  lemma TransferOfChosenFolder(f: TFile, d: string, existing: set<string>, root: string, isIosApp: bool)
    ensures TransferFor(MoveToFolder(f, Some(d)), existing, root, isIosApp)
            == Transfer(CreateDirectoryPlan(existing, root, d, isIosApp), MoveTarget(d, f))
  {
  }

  // ---------------------------------------------------------------------------
  // Properties of every run
  // ---------------------------------------------------------------------------

  predicate IsFileOperation(e: Effect)
  {
    e.PromptForFileRename? || e.RenameFile?
  }

  predicate AtMostOneFileOperation(log: seq<Effect>)
  {
    forall i, j :: 0 <= i < |log| && 0 <= j < |log| && IsFileOperation(log[i]) && IsFileOperation(log[j]) ==> i == j
  }

  predicate NoNativeCommand(log: seq<Effect>)
  {
    forall i :: 0 <= i < |log| ==> !log[i].ExecuteCommand?
  }

  /** The host calls of one action touch at most one file. */
  lemma PerformAtMostOneFileOperation(a: Action, tr: Transfer)
    ensures AtMostOneFileOperation(Perform(a, tr))
  {
    if a.MoveToFolder? && a.folder.Some? {
      var plan := tr.plan;
      var log := Perform(a, tr);
      assert log == [OpenFolderPicker] + MkdirEffects(plan) + [RenameFile(a.file, tr.target)];
    }
  }

  /** Link lookups in front of an action's calls add no file operation. */
  lemma LookupsThenAtMostOneFileOperation(lookup: seq<Effect>, a: Action, tr: Transfer)
    requires forall i :: 0 <= i < |lookup| ==> lookup[i].LookupLink?
    ensures AtMostOneFileOperation(lookup + Perform(a, tr))
  {
    var p := Perform(a, tr);
    PerformAtMostOneFileOperation(a, tr);
    forall i | 0 <= i < |lookup + p| ensures (lookup + p)[i] == if i < |lookup| then lookup[i] else p[i - |lookup|] { }
  }

  /**
   * Each command touches at most one file: a rename prompt or a move, never both and never
   * twice, whatever the token, the flag, the resolver and the picker's outcome.
   */
  lemma AtMostOneFileOperationPerCommand(token: Option<ClickableToken>, linkOnly: bool,
                                         resolver: (string, string) -> Option<TFile>, sourcePath: string,
                                         choice: Option<string>, tr: Transfer)
    ensures AtMostOneFileOperation(RenameEffects(token, linkOnly, resolver, sourcePath))
    ensures AtMostOneFileOperation(MoveEffects(token, linkOnly, resolver, sourcePath, choice, tr))
  {
    var lookup := LinkLookup(token, sourcePath);
    LookupsThenAtMostOneFileOperation(lookup, RenameAction(token, linkOnly, resolver, sourcePath), Transfer([], []));
    LookupsThenAtMostOneFileOperation(lookup, MoveAction(token, linkOnly, resolver, sourcePath, choice), tr);
  }

  /** An action other than a native command, after link lookups, runs no native command. */
  lemma LookupsThenNoNativeCommand(lookup: seq<Effect>, a: Action, tr: Transfer)
    requires forall i :: 0 <= i < |lookup| ==> lookup[i].LookupLink?
    requires !a.NativeCommand?
    ensures NoNativeCommand(lookup + Perform(a, tr))
  {
    var p := Perform(a, tr);
    if a.MoveToFolder? && a.folder.Some? {
      assert p == [OpenFolderPicker] + MkdirEffects(tr.plan) + [RenameFile(a.file, tr.target)];
      forall i | 0 <= i < |p| ensures !p[i].ExecuteCommand? {
        if 1 <= i < |p| - 1 {
          assert p[i] == MkdirEffects(tr.plan)[i - 1];
        }
      }
    }
    forall i | 0 <= i < |lookup + p| ensures (lookup + p)[i] == if i < |lookup| then lookup[i] else p[i - |lookup|] { }
  }

  /** The link-only variants never fall back to a native command. */
  lemma LinkOnlyRunsNoNativeCommand(token: Option<ClickableToken>,
                                    resolver: (string, string) -> Option<TFile>, sourcePath: string,
                                    choice: Option<string>, tr: Transfer)
    ensures NoNativeCommand(RenameEffects(token, true, resolver, sourcePath))
    ensures NoNativeCommand(MoveEffects(token, true, resolver, sourcePath, choice, tr))
  {
    var lookup := LinkLookup(token, sourcePath);
    LookupsThenNoNativeCommand(lookup, RenameAction(token, true, resolver, sourcePath), Transfer([], []));
    LookupsThenNoNativeCommand(lookup, MoveAction(token, true, resolver, sourcePath, choice), tr);
  }

  /**
   * A moved file keeps its name: the last component of `join(d, f.name)`, as `path.parse`
   * reads it, is `f.name`, for any folder `d`, when the name is a plain file name.
   */
  lemma MoveKeepsFileName(d: string, f: TFile)
    requires f.name != [] && NoSep(f.name) && Trim(f.name) == f.name
    ensures Parse(MoveTarget(d, f)).name == f.name
  {
    JoinKeepsName(d, f.name);
  }

  /**
   * Because `path.join` trims its parts, a moved file whose name has whitespace at
   * either end loses it: the file named " a.md" moved into "d" is named "a.md".
   */
  lemma MoveTrimsFileName()
    ensures Parse(MoveTarget("d", TFile("x/ a.md", " a.md"))).name == "a.md"
    ensures "a.md" != " a.md"
  {
    LeadingSpaceName();
    JoinTrimsName("d", " a.md");
  }

  /** The name " a.md" trims to "a.md", which has no separator. */
  lemma LeadingSpaceName()
    ensures Trim(" a.md") == "a.md" && NoSep("a.md")
  {
    assert " a.md"[1..] == "a.md";
    assert TrimStart(" a.md") == TrimStart("a.md");
    TrimOfTrimmed("a.md");
  }

  /**
   * A picker session that opens the modal and ends without a choice leaves the move
   * command waiting forever: no directory is created and nothing is renamed.
   */
  lemma DismissedPickerMovesNothing(token: Option<ClickableToken>, linkOnly: bool,
                                    resolver: (string, string) -> Option<TFile>, sourcePath: string,
                                    visited: seq<FolderPicker.AbstractFile>, events: seq<FolderPicker.PickerEvent>,
                                    tr: Transfer)
    requires FolderPicker.NoChoice(events)
    ensures var session := FolderPicker.PickerState(FolderPicker.Snapshot(visited), false, [], [], true, None);
            var choice := FolderPicker.Run(session, events).result;
            var log := MoveEffects(token, linkOnly, resolver, sourcePath, choice, tr);
            forall i :: 0 <= i < |log| ==> !log[i].MakeDir? && !log[i].RenameFile?
  {
    var session := FolderPicker.PickerState(FolderPicker.Snapshot(visited), false, [], [], true, None);
    FolderPicker.DismissDeliversNothing(session, events);
  }

  /** Two calls logged one after the other. */
  lemma AppendPair(start: seq<Effect>, x: Effect, y: Effect)
    ensures start + [x] + [y] == start + [x, y]
  {
    assert [x] + [y] == [x, y];
  }

  /** The log of the internal-link handler once a folder is chosen, in the order of the calls. */
  lemma ChosenFolderLog(start: seq<Effect>, lookup: Effect, f: TFile, d: string, tr: Transfer)
    ensures start + [lookup] + [OpenFolderPicker] + MkdirEffects(tr.plan) + [RenameFile(f, tr.target)]
            == start + [lookup] + Perform(MoveToFolder(f, Some(d)), tr)
  {
    var rest := MkdirEffects(tr.plan) + [RenameFile(f, tr.target)];
    assert Perform(MoveToFolder(f, Some(d)), tr) == [OpenFolderPicker] + rest;
    assert start + [lookup] + [OpenFolderPicker] + MkdirEffects(tr.plan) + [RenameFile(f, tr.target)]
           == start + [lookup] + ([OpenFolderPicker] + rest);
  }

  /** For an internal link, the link-only flag does not matter: move resolves the link, then acts. */
  lemma InternalMoveEffects(start: seq<Effect>, t: ClickableToken, linkOnly: bool,
                            resolver: (string, string) -> Option<TFile>, sourcePath: string,
                            choice: Option<string>, tr: Transfer)
    requires t.kind == InternalLink
    ensures var a := MoveAction(Some(t), false, resolver, sourcePath, choice);
            && MoveAction(Some(t), linkOnly, resolver, sourcePath, choice) == a
            && start + MoveEffects(Some(t), linkOnly, resolver, sourcePath, choice, tr)
               == start + [LookupLink(GetPath(t.text), sourcePath)] + Perform(a, tr)
  {
    var a := MoveAction(Some(t), false, resolver, sourcePath, choice);
    assert LinkLookup(Some(t), sourcePath) == [LookupLink(GetPath(t.text), sourcePath)];
    assert start + ([LookupLink(GetPath(t.text), sourcePath)] + Perform(a, tr))
           == start + [LookupLink(GetPath(t.text), sourcePath)] + Perform(a, tr);
  }

  // ---------------------------------------------------------------------------
  // ContextAwareRenamePlugin
  // ---------------------------------------------------------------------------

  class ContextAwareRenamePlugin {
    const host: Host

    constructor (host: Host)
      ensures this.host == host
    {
      this.host := host;
    }

    /** `getLinkTFile(token)`: resolves the link text, without its '#' part, from the active file. */
    method GetLinkTFile(token: ClickableToken) returns (file: Option<TFile>)
      requires host.Valid()
      modifies host
      ensures host.Valid() && host.dirs == old(host.dirs)
      ensures file == host.resolver(GetPath(token.text), host.activeFilePath)
      ensures host.log == old(host.log) + [LookupLink(GetPath(token.text), host.activeFilePath)]
    {
      var linkPath := GetPath(token.text);
      var filePath := host.activeFilePath;
      file := host.GetFirstLinkpathDest(linkPath, filePath);
    }

    method RenameFileOrLink(editor: Editor, linkOnly: bool)
      requires host.Valid()
      modifies host
      ensures host.Valid() && host.dirs == old(host.dirs)
      ensures host.log == old(host.log)
                + RenameEffects(GetClickableToken(editor), linkOnly, host.resolver, host.activeFilePath)
    {
      var token := GetClickableToken(editor);
      if token.None? {
        RenameWithoutToken(linkOnly, host.resolver, host.activeFilePath);
        if !linkOnly {
          host.Call(ExecuteCommand(EditFileTitle));
        }
        return;
      }
      var t := token.value;
      match t.kind
      case ExternalLink =>
        RenameExternalLink(t, linkOnly, host.resolver, host.activeFilePath);
        host.Call(Focus);
        host.Call(SetSelection(t.start, t.end));
      case InternalLink =>
        RenameInternalLink(t, linkOnly, host.resolver, host.activeFilePath);
        ghost var start := host.log;
        ghost var lookup := LookupLink(GetPath(t.text), host.activeFilePath);
        var linkTFile := GetLinkTFile(t);
        if linkTFile.None? {
          return;
        }
        host.Call(PromptForFileRename(linkTFile.value));
        AppendPair(start, lookup, PromptForFileRename(linkTFile.value));
    }

    /**
     * Once the folder is chosen (src/main.ts:132-136): create it, then rename the file to
     * `join(newFolderPath, file.name)`.
     */
    method MoveIntoFolder(file: TFile, newFolderPath: string, isIosApp: bool)
      requires host.Valid()
      modifies host
      ensures host.Valid()
      ensures var plan := CreateDirectoryPlan(old(host.dirs), host.rootPath, newFolderPath, isIosApp);
              && host.log == old(host.log) + MkdirEffects(plan) + [RenameFile(file, MoveTarget(newFolderPath, file))]
              && host.dirs == old(host.dirs) + Made(plan)
    {
      CreateDirectory(host, newFolderPath, isIosApp);
      host.Call(RenameFile(file, Join([newFolderPath, file.name])));
    }

    /**
     * The handler for internal links (src/main.ts:121-137): resolve the link, show the
     * picker, and once a folder is chosen create it and move the file into it.
     */
    method MoveInternalLink(token: ClickableToken, choice: Option<string>, isIosApp: bool)
      requires token.kind == InternalLink && host.Valid()
      modifies host
      ensures host.Valid()
      ensures var a := MoveAction(Some(token), false, host.resolver, host.activeFilePath, choice);
              var tr := TransferFor(a, old(host.dirs), host.rootPath, isIosApp);
              && host.log == old(host.log) + [LookupLink(GetPath(token.text), host.activeFilePath)] + Perform(a, tr)
              && host.dirs == old(host.dirs) + Made(tr.plan)
    {
      ghost var a := MoveAction(Some(token), false, host.resolver, host.activeFilePath, choice);
      ghost var start := host.log;
      var linkTFile := GetLinkTFile(token);
      if linkTFile.None? {
        assert a == NoAction && Perform(a, TransferFor(a, host.dirs, host.rootPath, isIosApp)) == [];
        return;
      }
      var f := linkTFile.value;
      assert a == MoveToFolder(f, choice);
      host.Call(OpenFolderPicker);
      if choice.None? {
        assert Perform(a, TransferFor(a, host.dirs, host.rootPath, isIosApp)) == [OpenFolderPicker];
        return;
      }
      var newFolderPath := choice.value;
      ghost var tr := TransferFor(a, host.dirs, host.rootPath, isIosApp);
      TransferOfChosenFolder(f, newFolderPath, host.dirs, host.rootPath, isIosApp);
      ghost var lookup := LookupLink(GetPath(token.text), host.activeFilePath);
      MoveIntoFolder(f, newFolderPath, isIosApp);
      ChosenFolderLog(start, lookup, f, newFolderPath, tr);
    }

    /**
     * `moveFileOrLink`, with the folder picker's outcome as `choice` and the platform
     * as `isIosApp`.
     */
    method MoveFileOrLink(editor: Editor, linkOnly: bool, choice: Option<string>, isIosApp: bool)
      requires host.Valid()
      modifies host
      ensures host.Valid()
      ensures var token := GetClickableToken(editor);
              var tr := TransferFor(MoveAction(token, linkOnly, host.resolver, host.activeFilePath, choice),
                                    old(host.dirs), host.rootPath, isIosApp);
              && host.log == old(host.log) + MoveEffects(token, linkOnly, host.resolver, host.activeFilePath, choice, tr)
              && host.dirs == old(host.dirs) + Made(tr.plan)
    {
      var token := GetClickableToken(editor);
      if token.None? {
        if !linkOnly {
          host.Call(ExecuteCommand(MoveFileCommand));
        }
        return;
      }
      var t := token.value;
      ghost var start := host.log;
      ghost var tr := TransferFor(MoveAction(token, linkOnly, host.resolver, host.activeFilePath, choice),
                                  host.dirs, host.rootPath, isIosApp);
      match t.kind
      case ExternalLink =>
        assert MoveAction(token, linkOnly, host.resolver, host.activeFilePath, choice) == NoAction;
      case InternalLink =>
        InternalMoveEffects(start, t, linkOnly, host.resolver, host.activeFilePath, choice, tr);
        MoveInternalLink(t, choice, isIosApp);
    }
  }
}
