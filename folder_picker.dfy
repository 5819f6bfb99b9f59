// The folder picker of the move command (src/chooseFolderModal.ts): a snapshot of the
// vault's folders taken when the modal is built, and the event methods the host's fuzzy
// suggester calls while the user types, autocompletes with Tab and picks a row.

module FolderPicker {
  import opened Wrappers
  import opened Host

  datatype TFolder = TFolder(path: string, name: string)

  /** A node `Vault.recurseChildren` visits: a file or a folder. */
  datatype AbstractFile = FileNode(file: TFile) | FolderNode(folder: TFolder)

  predicate Distinct(folders: seq<TFolder>)
  {
    forall i, j :: 0 <= i < j < |folders| ==> folders[i] != folders[j]
  }

  /**
   * The pushes of initFolders: starting from `start`, each visited folder that the list
   * does not contain yet is appended, in visiting order; files are skipped.
   */
  function Collect(start: seq<TFolder>, visited: seq<AbstractFile>): (r: seq<TFolder>)
    ensures start <= r && |r| <= |start| + |visited|
    decreases |visited|
  {
    if visited == [] then start
    else
      var front := Collect(start, visited[..|visited| - 1]);
      var node := visited[|visited| - 1];
      if node.FolderNode? && node.folder !in front then front + [node.folder] else front
  }

  /** The position of the first visit of `f`. */
  function FirstVisit(visited: seq<AbstractFile>, f: TFolder): (i: nat)
    requires FolderNode(f) in visited
    ensures i < |visited| && visited[i] == FolderNode(f) && FolderNode(f) !in visited[..i]
  {
    if visited[0] == FolderNode(f) then 0
    else
      assert visited == [visited[0]] + visited[1..];
      var j := FirstVisit(visited[1..], f);
      assert visited[..j + 1] == [visited[0]] + visited[1..][..j];
      1 + j
  }

  lemma {:induction false} FirstVisitSnoc(visited: seq<AbstractFile>, node: AbstractFile, f: TFolder)
    requires FolderNode(f) in visited
    ensures FirstVisit(visited + [node], f) == FirstVisit(visited, f)
  {
    assert (visited + [node])[0] == visited[0];
    if visited[0] != FolderNode(f) {
      assert visited == [visited[0]] + visited[1..];
      assert (visited + [node])[1..] == visited[1..] + [node];
      FirstVisitSnoc(visited[1..], node, f);
    }
  }

  lemma FirstVisitLast(visited: seq<AbstractFile>, f: TFolder)
    requires FolderNode(f) !in visited
    ensures FirstVisit(visited + [FolderNode(f)], f) == |visited|
  {
  }

  /**
   * What initFolders collects: the start list, then every visited folder it did not
   * hold, each once and in first-visit order; nothing that is not a folder.
   */
  lemma {:induction false} CollectSpec(start: seq<TFolder>, visited: seq<AbstractFile>)
    requires Distinct(start)
    ensures var r := Collect(start, visited);
            && Distinct(r)
            && start <= r
            && (forall f :: f in r <==> f in start || FolderNode(f) in visited)
            && (forall i, j :: |start| <= i < j < |r| ==>
                  FolderNode(r[i]) in visited && FolderNode(r[j]) in visited &&
                  FirstVisit(visited, r[i]) < FirstVisit(visited, r[j]))
    decreases |visited|
  {
    if visited != [] {
      var front := visited[..|visited| - 1];
      var node := visited[|visited| - 1];
      assert visited == front + [node];
      CollectSpec(start, front);
      var c := Collect(start, front);
      forall i | |start| <= i < |c|
        ensures FolderNode(c[i]) in visited && FirstVisit(visited, c[i]) == FirstVisit(front, c[i])
      {
        assert c[i] in c;
        FirstVisitSnoc(front, node, c[i]);
      }
      assert forall f :: FolderNode(f) in visited <==> FolderNode(f) in front || FolderNode(f) == node;
      if node.FolderNode? && node.folder !in c {
        assert Collect(start, visited) == c + [node.folder];
        FirstVisitLast(front, node.folder);
      } else {
        assert Collect(start, visited) == c;
      }
    }
  }

  function Reversed(s: seq<TFolder>): (r: seq<TFolder>)
    ensures |r| == |s| && forall i :: 0 <= i < |s| ==> r[i] == s[|s| - 1 - i]
  {
    if s == [] then [] else Reversed(s[1..]) + [s[0]]
  }

  /** The snapshot a fresh modal holds after `this.folders.reverse()`. */
  function Snapshot(visited: seq<AbstractFile>): (r: seq<TFolder>)
    ensures |r| <= |visited|
  {
    Reversed(Collect([], visited))
  }

  /** Reversing keeps the members. */
  lemma ReversedMembers(s: seq<TFolder>)
    ensures forall f :: f in Reversed(s) <==> f in s
  {
    var r := Reversed(s);
    forall f ensures f in r <==> f in s {
      if f in r {
        var i :| 0 <= i < |r| && r[i] == f;
        assert s[|s| - 1 - i] == f;
      }
      if f in s {
        var i :| 0 <= i < |s| && s[i] == f;
        assert r[|s| - 1 - i] == f;
      }
    }
  }

  /**
   * The snapshot holds exactly the visited folders, each once, latest first visit
   * first: the reverse of first-visit order.
   */
  lemma SnapshotSpec(visited: seq<AbstractFile>)
    ensures var r := Snapshot(visited);
            && Distinct(r)
            && (forall f :: f in r <==> FolderNode(f) in visited)
            && (forall i, j :: 0 <= i < j < |r| ==>
                  FolderNode(r[i]) in visited && FolderNode(r[j]) in visited &&
                  FirstVisit(visited, r[i]) > FirstVisit(visited, r[j]))
  {
    var c := Collect([], visited);
    CollectSpec([], visited);
    ReversedMembers(c);
    SnapshotOrder(visited, c);
  }

  /** Reversing the collected list reverses its first-visit order. */
  lemma SnapshotOrder(visited: seq<AbstractFile>, c: seq<TFolder>)
    requires Distinct(c)
    requires forall i, j :: 0 <= i < j < |c| ==>
               FolderNode(c[i]) in visited && FolderNode(c[j]) in visited &&
               FirstVisit(visited, c[i]) < FirstVisit(visited, c[j])
    ensures var r := Reversed(c);
            && Distinct(r)
            && (forall i, j :: 0 <= i < j < |r| ==>
                  FolderNode(r[i]) in visited && FolderNode(r[j]) in visited &&
                  FirstVisit(visited, r[i]) > FirstVisit(visited, r[j]))
  {
    var r := Reversed(c);
    forall i, j | 0 <= i < j < |r|
      ensures r[i] != r[j]
      ensures FolderNode(r[i]) in visited && FolderNode(r[j]) in visited
      ensures FirstVisit(visited, r[i]) > FirstVisit(visited, r[j])
    {
      assert r[i] == c[|c| - 1 - i] && r[j] == c[|c| - 1 - j];
    }
  }

  // ---------------------------------------------------------------------------
  // The picker as a session of events
  // ---------------------------------------------------------------------------

  /**
   * The modal's state: `isOpen` says a promise resolver has been installed by `open()`,
   * and `result` is what that promise has resolved to, if anything.
   */
  datatype PickerState = PickerState(
    folders: seq<TFolder>,
    noSuggestion: bool,
    newDirectoryPath: string,
    inputValue: string,
    isOpen: bool,
    result: Option<string>)

  /**
   * What happens to an open modal: the user types (`Input`), the suggester renders a row
   * (`ItemText`) or finds none (`NoSuggestion`), a key goes down with the text of the
   * selected row if one is selected (`KeyDown`), the user picks a row (`ChooseItem`), or
   * the modal closes (`Close`).
   */
  datatype PickerEvent =
    | Open
    | Input(text: string)
    | ItemText(item: TFolder)
    | NoSuggestion
    | KeyDown(key: string, selected: Option<string>)
    | ChooseItem(item: TFolder)
    | Close

  const Tab := "Tab"

  /**
   * The value `onChooseItem(item)` hands to the promise resolver: the text captured when
   * the last rendering found no suggestion, the chosen folder's path otherwise.
   */
  function Chosen(s: PickerState, item: TFolder): (r: string)
    ensures s.noSuggestion ==> r == s.newDirectoryPath
    ensures !s.noSuggestion ==> r == item.path
  {
    if s.noSuggestion then s.newDirectoryPath else item.path
  }

  /**
   * One event. `open()` installs a fresh promise, so nothing is delivered yet; a
   * promise settles once, so a second choice changes nothing; before `open()` there is
   * no resolver to call.
   */
  function Step(s: PickerState, e: PickerEvent): (r: PickerState)
    ensures r.folders == s.folders
    ensures r.result != s.result ==> e.Open? || (e.ChooseItem? && r.result == Some(Chosen(s, e.item)))
  {
    match e
    case Open => s.(isOpen := true, result := None)
    case Input(text) => s.(inputValue := text)
    case ItemText(_) => s.(noSuggestion := false)
    case NoSuggestion => s.(noSuggestion := true, newDirectoryPath := s.inputValue)
    case KeyDown(key, selected) =>
      if key == Tab && selected.Some? then s.(inputValue := selected.value) else s
    case ChooseItem(item) =>
      if s.isOpen && s.result.None? then s.(result := Some(Chosen(s, item))) else s
    case Close => s
  }

  function Run(s: PickerState, events: seq<PickerEvent>): (r: PickerState)
    ensures r.folders == s.folders
    decreases |events|
  {
    if events == [] then s else Run(Step(s, events[0]), events[1..])
  }

  predicate NoChoice(events: seq<PickerEvent>)
  {
    forall i :: 0 <= i < |events| ==> !events[i].ChooseItem?
  }

  predicate NoReopen(events: seq<PickerEvent>)
  {
    forall i :: 0 <= i < |events| ==> !events[i].Open?
  }

  /**
   * A result is delivered only through `onChooseItem`: a session that opens the modal
   * and closes it without choosing leaves the promise unsettled.
   */
  lemma {:induction false} DismissDeliversNothing(s: PickerState, events: seq<PickerEvent>)
    requires s.result == None
    requires NoChoice(events)
    ensures Run(s, events).result == None
    decreases |events|
  {
    if events != [] {
      DismissDeliversNothing(Step(s, events[0]), events[1..]);
    }
  }

  /** A settled promise stays settled with its first value while the modal is not reopened. */
  lemma {:induction false} ResultSettlesOnce(s: PickerState, events: seq<PickerEvent>)
    requires s.result.Some?
    requires NoReopen(events)
    ensures Run(s, events).result == s.result
    decreases |events|
  {
    if events != [] {
      ResultSettlesOnce(Step(s, events[0]), events[1..]);
    }
  }

  /** Events that leave the suggestion flag and the captured path alone. */
  predicate KeepsCapture(events: seq<PickerEvent>)
  {
    forall i :: 0 <= i < |events| ==>
      !events[i].NoSuggestion? && !events[i].ItemText? && !events[i].Open? && !events[i].ChooseItem?
  }

  lemma {:induction false} RunKeepsCapture(s: PickerState, events: seq<PickerEvent>)
    requires KeepsCapture(events)
    ensures var r := Run(s, events);
            r.noSuggestion == s.noSuggestion && r.newDirectoryPath == s.newDirectoryPath &&
            r.isOpen == s.isOpen && r.result == s.result
    decreases |events|
  {
    if events != [] {
      RunKeepsCapture(Step(s, events[0]), events[1..]);
    }
  }

  lemma RunAppend(s: PickerState, a: seq<PickerEvent>, b: seq<PickerEvent>)
    ensures Run(s, a + b) == Run(Run(s, a), b)
    decreases |a|
  {
    if a != [] {
      assert (a + b)[0] == a[0] && (a + b)[1..] == a[1..] + b;
      calc {
        Run(s, a + b);
        Run(Step(s, a[0]), a[1..] + b);
        { RunAppend(Step(s, a[0]), a[1..], b); }
        Run(Run(Step(s, a[0]), a[1..]), b);
        Run(Run(s, a), b);
      }
    } else {
      assert a + b == b;
    }
  }

  /**
   * When the suggester found nothing, choosing delivers the text that was in the input
   * at that moment, exactly as typed, whatever the row and whatever was typed since.
   */
  lemma ChooseDeliversTypedPath(s: PickerState, events: seq<PickerEvent>, item: TFolder)
    requires s.isOpen && s.result == None
    requires KeepsCapture(events)
    ensures Run(s, [NoSuggestion] + events + [ChooseItem(item)]).result == Some(s.inputValue)
  {
    var t := Step(s, NoSuggestion);
    RunAppend(s, [NoSuggestion], events + [ChooseItem(item)]);
    RunAppend(t, events, [ChooseItem(item)]);
    assert [NoSuggestion] + events + [ChooseItem(item)] == [NoSuggestion] + (events + [ChooseItem(item)]);
    RunKeepsCapture(t, events);
  }

  /** When the chosen row was rendered as a suggestion, choosing delivers that folder's path. */
  lemma ChooseDeliversFolderPath(s: PickerState, shown: TFolder, events: seq<PickerEvent>, item: TFolder)
    requires s.isOpen && s.result == None
    requires KeepsCapture(events)
    ensures Run(s, [ItemText(shown)] + events + [ChooseItem(item)]).result == Some(item.path)
  {
    var t := Step(s, ItemText(shown));
    RunAppend(s, [ItemText(shown)], events + [ChooseItem(item)]);
    RunAppend(t, events, [ChooseItem(item)]);
    assert [ItemText(shown)] + events + [ChooseItem(item)] == [ItemText(shown)] + (events + [ChooseItem(item)]);
    RunKeepsCapture(t, events);
  }

  // ---------------------------------------------------------------------------
  // ChooseFolderModal
  // ---------------------------------------------------------------------------

  class ChooseFolderModal {
    var folders: seq<TFolder>
    var noSuggestion: bool
    var newDirectoryPath: string
    /** The text of the modal's input element. */
    var inputValue: string
    var isOpen: bool
    var result: Option<string>

    function State(): PickerState
      reads this
    {
      PickerState(folders, noSuggestion, newDirectoryPath, inputValue, isOpen, result)
    }

    /**
     * Builds the modal over the nodes `Vault.recurseChildren` visits from the vault
     * root, in visiting order.
     */
    constructor (visited: seq<AbstractFile>)
      ensures folders == Snapshot(visited)
      ensures !noSuggestion && newDirectoryPath == [] && inputValue == []
      ensures !isOpen && result == None
    {
      folders := [];
      noSuggestion := false;
      newDirectoryPath := [];
      inputValue := [];
      isOpen := false;
      result := None;
      new;
      InitFolders(visited);
    }

    /** Pushes every visited folder not yet listed, then reverses the list in place. */
    method InitFolders(visited: seq<AbstractFile>)
      modifies this
      ensures folders == Reversed(Collect(old(folders), visited))
      ensures noSuggestion == old(noSuggestion) && newDirectoryPath == old(newDirectoryPath)
      ensures inputValue == old(inputValue) && isOpen == old(isOpen) && result == old(result)
    {
      ghost var start := folders;
      for i := 0 to |visited|
        invariant folders == Collect(start, visited[..i])
        invariant noSuggestion == old(noSuggestion) && newDirectoryPath == old(newDirectoryPath)
        invariant inputValue == old(inputValue) && isOpen == old(isOpen) && result == old(result)
      {
        assert visited[..i + 1][..i] == visited[..i];
        var file := visited[i];
        if file.FolderNode? && file.folder !in folders {
          folders := folders + [file.folder];
        }
      }
      assert visited[..|visited|] == visited;
      folders := Reversed(folders);
    }

    /** The suggester's items: the snapshot, unchanged. */
    method GetItems() returns (items: seq<TFolder>)
      ensures items == folders
    {
      items := folders;
    }

    method GetItemText(item: TFolder) returns (text: string)
      modifies this
      ensures text == item.path
      ensures State() == Step(old(State()), ItemText(item))
    {
      noSuggestion := false;
      text := item.path;
    }

    method OnNoSuggestion()
      modifies this
      ensures noSuggestion && newDirectoryPath == old(inputValue)
      ensures State() == Step(old(State()), NoSuggestion)
    {
      noSuggestion := true;
      newDirectoryPath := inputValue;
    }

    /**
     * The keydown listener: Tab with a selected row copies the row's text into the
     * input and suppresses the default action; anything else changes nothing.
     */
    method InputListener(key: string, selected: Option<string>) returns (preventDefault: bool)
      modifies this
      ensures preventDefault <==> key == Tab && selected.Some?
      ensures preventDefault ==> inputValue == selected.value
      ensures !preventDefault ==> inputValue == old(inputValue)
      ensures State() == Step(old(State()), KeyDown(key, selected))
    {
      preventDefault := false;
      if key == Tab && selected.Some? {
        inputValue := selected.value;
        preventDefault := true;
      }
    }

    /** `open()`: installs the resolver of a fresh, unsettled promise. */
    method Open()
      modifies this
      ensures isOpen && result == None
      ensures State() == Step(old(State()), PickerEvent.Open)
    {
      isOpen := true;
      result := None;
    }

    /**
     * Resolves the promise with the typed path when the suggester found nothing, and
     * with the chosen folder's path otherwise; a settled promise ignores the call.
     */
    method OnChooseItem(item: TFolder)
      requires isOpen
      modifies this
      ensures old(result) == None ==>
                result == Some(if old(noSuggestion) then old(newDirectoryPath) else item.path)
      ensures old(result) != None ==> result == old(result)
      ensures State() == Step(old(State()), ChooseItem(item))
    {
      if result == None {
        result := Some(if noSuggestion then newDirectoryPath else item.path);
      }
    }
  }
}
