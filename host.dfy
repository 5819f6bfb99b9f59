/**
 * The Obsidian application as the plugin sees it (src/types.ts and the host calls in
 * src/main.ts, main.ts and src/util.ts). The host's own algorithms (link resolution, the
 * file manager's dialogs, the vault adapter) are not modelled: every call the plugin makes
 * is appended to an effect log, lookups answer from fixed host data, and the vault's
 * directories are a set of paths that `mkdir` adds a path and its ancestors to.
 */
module Host {
  import opened Wrappers

  /** An editor position (line, column). */
  datatype Position = Position(line: int, ch: int)

  /** `linkTypeEnum`: the two kinds of clickable token. */
  datatype LinkType = InternalLink | ExternalLink

  /** `ClickableToken`: what lies under the cursor, with its source text and bounds. */
  datatype ClickableToken = ClickableToken(kind: LinkType, text: string, start: Position, end: Position)

  /** A note file (`TFile`); `name` is the base name with its extension. */
  datatype TFile = TFile(path: string, name: string)

  /** What an editor offers the plugin: the cursor and `getClickableTokenAt`. */
  datatype Editor = Editor(cursor: Position, tokenAt: Position -> Option<ClickableToken>)

  /** One call from the plugin into the host. */
  datatype Effect =
    | ExecuteCommand(id: string)                     // app.commands.executeCommandById
    | Focus                                          // editor.focus
    | SetSelection(anchor: Position, head: Position) // editor.setSelection
    | LookupLink(linkPath: string, sourcePath: string) // metadataCache.getFirstLinkpathDest
    | PromptForFileRename(file: TFile)               // fileManager.promptForFileRename
    | OpenFolderPicker                               // the folder picker modal is shown
    | MakeDir(path: string)                          // vault.adapter.mkdir
    | RenameFile(file: TFile, newPath: string)       // fileManager.renameFile

  /**
   * The directories a recursive `mkdir(path)` leaves in place: `path` itself and every
   * non-empty prefix of it that ends just before a '/', that is, each of its ancestors.
   */
  function Ancestors(path: string): set<string>
  {
    {path} + set i | 0 < i < |path| && path[i] == '/' :: path[..i]
  }

  /**
   * The ancestors of `path` are `path` and exactly the prefixes of it that a '/'
   * follows: each is a prefix, and every prefix cut at a '/' is one.
   */
  lemma AncestorsSpec(path: string)
    ensures path in Ancestors(path)
    ensures forall q :: q in Ancestors(path) ==> q <= path && (q == path || (q != [] && path[|q|] == '/'))
    ensures forall i :: 0 < i < |path| && path[i] == '/' ==> path[..i] in Ancestors(path)
  {
  }

  /** The ancestors of an ancestor are ancestors: a recursive `mkdir` leaves no gap. */
  lemma AncestorsOfAncestor(path: string, q: string)
    requires q in Ancestors(path)
    ensures Ancestors(q) <= Ancestors(path)
  {
    AncestorsSpec(path);
    forall x | x in Ancestors(q) ensures x in Ancestors(path) {
      if x != q {
        assert x == path[..|x|] && 0 < |x| < |path| && path[|x|] == '/';
      }
    }
  }

  /** Every directory's ancestors exist too, as in a real file system. */
  ghost predicate AncestorsExist(dirs: set<string>)
  {
    forall p :: p in dirs ==> Ancestors(p) <= dirs
  }

  /** A recursive `mkdir` keeps a vault whose directories' ancestors exist that way. */
  lemma MkdirKeepsAncestors(dirs: set<string>, path: string)
    requires AncestorsExist(dirs)
    ensures AncestorsExist(dirs + Ancestors(path))
  {
    forall p | p in dirs + Ancestors(path) ensures Ancestors(p) <= dirs + Ancestors(path) {
      if p !in dirs {
        AncestorsOfAncestor(path, p);
      }
    }
  }

  /** The directories one call creates: the path of a `mkdir` and its ancestors. */
  function MadeBy(e: Effect): set<string>
  {
    if e.MakeDir? then Ancestors(e.path) else {}
  }

  /** The directories an effect log creates with `mkdir`. */
  ghost function Created(log: seq<Effect>): set<string>
    decreases |log|
  {
    if log == [] then {} else Created(log[..|log| - 1]) + MadeBy(log[|log| - 1])
  }

  lemma {:induction false} CreatedAppend(a: seq<Effect>, b: seq<Effect>)
    ensures Created(a + b) == Created(a) + Created(b)
    decreases |b|
  {
    if b == [] {
      assert a + b == a;
    } else {
      var front := b[..|b| - 1];
      assert (a + b)[..|a + b| - 1] == a + front;
      CreatedAppend(a, front);
    }
  }

  /** One call creates exactly the directories `MadeBy` names. */
  lemma CreatedOne(e: Effect)
    ensures Created([e]) == MadeBy(e)
  {
    assert [e][..0] == [];
  }

  /**
   * The host: the log of every call the plugin made that changes something or looks up
   * a link (the `exists` query is not logged), the vault's existing
   * directories, and the fixed data the plugin reads (the vault root's path, the path of
   * the file open in the active editor, and the link resolver).
   */
  class Host {
    var log: seq<Effect>
    var dirs: set<string>
    ghost const initialDirs: set<string>
    const rootPath: string
    const activeFilePath: string
    const resolver: (string, string) -> Option<TFile>

    /** The directories are the initial ones plus the ones the log created. */
    ghost predicate Valid()
      reads this
    {
      dirs == initialDirs + Created(log)
    }

    constructor (rootPath: string, activeFilePath: string,
                 resolver: (string, string) -> Option<TFile>, dirs: set<string>)
      ensures Valid() && this.log == [] && this.dirs == dirs
      ensures this.rootPath == rootPath && this.activeFilePath == activeFilePath
      ensures this.resolver == resolver
    {
      this.log := [];
      this.dirs := dirs;
      this.initialDirs := dirs;
      this.rootPath := rootPath;
      this.activeFilePath := activeFilePath;
      this.resolver := resolver;
    }

    /** Appends `e`, which creates no directory. */
    method Call(e: Effect)
      requires Valid() && !e.MakeDir?
      modifies this
      ensures Valid() && log == old(log) + [e] && dirs == old(dirs)
    {
      CreatedAppend(log, [e]);
      CreatedOne(e);
      log := log + [e];
    }

    /** `metadataCache.getFirstLinkpathDest(linkPath, sourcePath)`. */
    method GetFirstLinkpathDest(linkPath: string, sourcePath: string) returns (file: Option<TFile>)
      requires Valid()
      modifies this
      ensures Valid() && file == resolver(linkPath, sourcePath)
      ensures log == old(log) + [LookupLink(linkPath, sourcePath)] && dirs == old(dirs)
    {
      Call(LookupLink(linkPath, sourcePath));
      file := resolver(linkPath, sourcePath);
    }

    /** `adapter.exists(path)`, a query that changes nothing. */
    method Exists(path: string) returns (b: bool)
      ensures b <==> path in dirs
    {
      b := path in dirs;
    }

    /**
     * `adapter.mkdir(path)`, which is recursive: the path and every missing ancestor
     * exist afterwards.
     */
    method Mkdir(path: string)
      requires Valid()
      modifies this
      ensures Valid() && log == old(log) + [MakeDir(path)] && dirs == old(dirs) + Ancestors(path)
    {
      CreatedAppend(log, [MakeDir(path)]);
      CreatedOne(MakeDir(path));
      log := log + [MakeDir(path)];
      dirs := dirs + Ancestors(path);
    }
  }
}
