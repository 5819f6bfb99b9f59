// The plugin's first revision (main.ts): one "rename file or link" command, whose link
// text goes through its own `normalize` (non-breaking spaces folded, NFC, split at '#')
// and whose tokens carry their type as a plain string.

module LegacyPlugin {
  import opened Wrappers
  import opened Text
  import opened Host
  import Plugin

  const Nbsp: char := '\U{A0}'
  const InternalLinkType := "internal-link"

  /** A clickable token of the first revision: its type is any string, and its text. */
  datatype LegacyToken = LegacyToken(kind: string, text: string)

  /** The editor as the first revision sees it: the cursor and the token under a position. */
  datatype LegacyEditor = LegacyEditor(cursor: Position, tokenAt: Position -> Option<LegacyToken>)

  /** The result of `normalize`: the link's path and its '#' subpath. */
  datatype LinkPath = LinkPath(path: string, subpath: string)

  /** The replacement of every non-breaking space (U+00A0) by a space (U+0020). */
  function FoldNbsp(s: string): (r: string)
    ensures |r| == |s|
    ensures forall i :: 0 <= i < |s| ==> r[i] == (if s[i] == Nbsp then ' ' else s[i])
  {
    if s == [] then []
    else [if s[0] == Nbsp then ' ' else s[0]] + FoldNbsp(s[1..])
  }

  /** After folding, no non-breaking space is left, and a string without one is unchanged. */
  lemma FoldNbspSpec(s: string)
    ensures Nbsp !in FoldNbsp(s)
    ensures Nbsp !in s ==> FoldNbsp(s) == s
  {
    var r := FoldNbsp(s);
    assert forall i :: 0 <= i < |r| ==> r[i] != Nbsp;
  }

  /**
   * What the model needs of `String.prototype.normalize("NFC")` (Unicode Standard Annex
   * #15): it is idempotent, it creates neither a non-breaking space nor a '#', and '#',
   * which composes with nothing, splits a string into parts normalized independently.
   */
  ghost predicate NfcLaws(nfc: string -> string)
  {
    && (forall s :: nfc(nfc(s)) == nfc(s))
    && (forall s :: Nbsp !in s ==> Nbsp !in nfc(s))
    && (forall s :: '#' !in s ==> '#' !in nfc(s))
    && (forall a, b :: nfc(a + ['#'] + b) == nfc(a) + ['#'] + nfc(b))
  }

  /**
   * `normalize(value)`, with NFC as `nfc`: the folded and normalized text, cut before
   * its first '#' into the path and the rest.
   */
  function Normalize(nfc: string -> string, value: string): (r: LinkPath)
    ensures r.path + r.subpath == nfc(FoldNbsp(value))
    ensures '#' !in r.path
    ensures r.subpath == [] || r.subpath[0] == '#'
    ensures r.subpath == [] <==> '#' !in nfc(FoldNbsp(value))
  {
    var v := nfc(FoldNbsp(value));
    var path := Split(v, '#')[0];
    assert v == path + v[|path|..];
    LinkPath(path, v[|path|..])
  }

  /** No non-breaking space survives `normalize`, in the path or in the subpath. */
  lemma NormalizedPathHasNoNbsp(nfc: string -> string, x: string)
    requires NfcLaws(nfc)
    ensures Nbsp !in Normalize(nfc, x).path && Nbsp !in Normalize(nfc, x).subpath
  {
    var v := nfc(FoldNbsp(x));
    var n := Normalize(nfc, x);
    FoldNbspSpec(x);
    assert Nbsp !in v;
    forall i | 0 <= i < |n.path| ensures n.path[i] != Nbsp { assert n.path[i] == v[i]; }
    forall i | 0 <= i < |n.subpath| ensures n.subpath[i] != Nbsp { assert n.subpath[i] == v[|n.path| + i]; }
  }

  /**
   * Extracting the path again changes nothing: the path of the path is the path,
   * for every NFC that obeys its laws.
   */
  lemma PathExtractionIdempotent(nfc: string -> string, x: string)
    requires NfcLaws(nfc)
    ensures var p := Normalize(nfc, x).path;
            Normalize(nfc, p).path == p
  {
    var v := nfc(FoldNbsp(x));
    var n := Normalize(nfc, x);
    var p := n.path;
    NormalizedPathHasNoNbsp(nfc, x);
    assert nfc(v) == v;
    if n.subpath == [] {
      assert p == v;
    } else {
      assert v == p + ['#'] + n.subpath[1..];
      NfcOfCutPath(nfc, p, n.subpath[1..]);
    }
    NormalizeOfPlainPath(nfc, p);
  }

  /** A '#'-free path cut from a string NFC leaves unchanged is left unchanged by NFC too. */
  lemma NfcOfCutPath(nfc: string -> string, p: string, rest: string)
    requires NfcLaws(nfc) && '#' !in p
    requires nfc(p + ['#'] + rest) == p + ['#'] + rest
    ensures nfc(p) == p
  {
    assert nfc(p) + ['#'] + nfc(rest) == p + ['#'] + rest;
    var q := nfc(p);
    assert '#' !in q;
    SplitPrefix(q, nfc(rest), '#');
    SplitPrefix(p, rest, '#');
  }

  /** Text already folded and normalized, with no '#', is its own path and has no subpath. */
  lemma NormalizeOfPlainPath(nfc: string -> string, s: string)
    requires Nbsp !in s && nfc(s) == s && '#' !in s
    ensures Normalize(nfc, s) == LinkPath(s, [])
  {
    FoldNbspSpec(s);
  }

  predicate IsInternal(token: Option<LegacyToken>)
  {
    token.Some? && token.value.kind == InternalLinkType
  }

  /** The path `renameFileOrLink` resolves: the normalized token text without its subpath. */
  function LinkPathOf(nfc: string -> string, token: Option<LegacyToken>): (r: string)
    requires IsInternal(token)
    ensures '#' !in r && r <= nfc(FoldNbsp(token.value.text))
    ensures |r| < |nfc(FoldNbsp(token.value.text))| ==> nfc(FoldNbsp(token.value.text))[|r|] == '#'
  {
    Normalize(nfc, token.value.text).path
  }

  /** The lookup `getFirstLinkpathDest` performs: on internal links only. */
  function LinkLookup(nfc: string -> string, token: Option<LegacyToken>, sourcePath: string): (r: seq<Effect>)
    ensures r != [] <==> IsInternal(token)
    ensures forall i :: 0 <= i < |r| ==> r[i].LookupLink? && '#' !in r[i].linkPath
  {
    if IsInternal(token) then [LookupLink(LinkPathOf(nfc, token), sourcePath)] else []
  }

  /** The decision of the first revision's `renameFileOrLink`. */
  function RenameAction(nfc: string -> string, token: Option<LegacyToken>,
                        resolver: (string, string) -> Option<TFile>, sourcePath: string): (a: Plugin.Action)
    ensures a.NativeCommand? <==> token == None
    ensures a.NativeCommand? ==> a.id == Plugin.EditFileTitle
    ensures a.PromptRename? <==> IsInternal(token) && resolver(LinkPathOf(nfc, token), sourcePath).Some?
    ensures a.PromptRename? ==> Some(a.file) == resolver(LinkPathOf(nfc, token), sourcePath)
    ensures !a.SelectLink? && !a.MoveToFolder?
  {
    match token
    case None => Plugin.NativeCommand(Plugin.EditFileTitle)
    case Some(t) =>
      if t.kind != InternalLinkType then Plugin.NoAction
      else
        match resolver(Normalize(nfc, t.text).path, sourcePath)
        case None => Plugin.NoAction
        case Some(f) => Plugin.PromptRename(f)
  }

  /**
   * Everything the first revision's `renameFileOrLink` asks of the host: it starts with a
   * link lookup exactly for an internal link, and that lookup is of the normalized path.
   */
  function RenameEffects(nfc: string -> string, token: Option<LegacyToken>,
                         resolver: (string, string) -> Option<TFile>, sourcePath: string): (r: seq<Effect>)
    ensures IsInternal(token) <==> |r| > 0 && r[0].LookupLink?
    ensures IsInternal(token) ==> r[0] == LookupLink(LinkPathOf(nfc, token), sourcePath)
  {
    LinkLookup(nfc, token, sourcePath)
    + Plugin.Perform(RenameAction(nfc, token, resolver, sourcePath), Plugin.Transfer([], []))
  }

  /**
   * The routing of the first revision: no token runs the title editor once; a token of
   * any other type than "internal-link" does nothing; an internal link is resolved and,
   * when it resolves to `f`, `f` is offered for renaming once.
   */
  lemma RenameRouting(nfc: string -> string, token: Option<LegacyToken>,
                      resolver: (string, string) -> Option<TFile>, sourcePath: string)
    ensures token == None ==> RenameEffects(nfc, token, resolver, sourcePath) == [ExecuteCommand(Plugin.EditFileTitle)]
    ensures token.Some? && token.value.kind != InternalLinkType ==> RenameEffects(nfc, token, resolver, sourcePath) == []
    ensures IsInternal(token) ==>
              var lookup := LookupLink(LinkPathOf(nfc, token), sourcePath);
              RenameEffects(nfc, token, resolver, sourcePath)
              == match resolver(LinkPathOf(nfc, token), sourcePath)
                 case None => [lookup]
                 case Some(f) => [lookup, PromptForFileRename(f)]
  {
  }

  /** The first revision touches at most one file per command and never moves one. */
  lemma RenameAtMostOneFileOperation(nfc: string -> string, token: Option<LegacyToken>,
                                     resolver: (string, string) -> Option<TFile>, sourcePath: string)
    ensures Plugin.AtMostOneFileOperation(RenameEffects(nfc, token, resolver, sourcePath))
    ensures forall e :: e in RenameEffects(nfc, token, resolver, sourcePath) ==> !e.RenameFile? && !e.MakeDir?
  {
    Plugin.LookupsThenAtMostOneFileOperation(LinkLookup(nfc, token, sourcePath),
                                              RenameAction(nfc, token, resolver, sourcePath), Plugin.Transfer([], []));
  }

  class LegacyRenamePlugin {
    const host: Host
    const nfc: string -> string

    constructor (host: Host, nfc: string -> string)
      ensures this.host == host && this.nfc == nfc
    {
      this.host := host;
      this.nfc := nfc;
    }

    /** `renameFileOrLink`, returning as soon as there is nothing more to do. */
    method RenameFileOrLink(editor: LegacyEditor)
      requires host.Valid()
      modifies host
      ensures host.Valid() && host.dirs == old(host.dirs)
      ensures host.log == old(host.log)
                + RenameEffects(nfc, editor.tokenAt(editor.cursor), host.resolver, host.activeFilePath)
    {
      var cursorPosition := editor.cursor;
      var token := editor.tokenAt(cursorPosition);
      if token.None? {
        host.Call(ExecuteCommand(Plugin.EditFileTitle));
        return;
      }
      if token.value.kind != InternalLinkType {
        return;
      }
      var linkPath := Normalize(nfc, token.value.text).path;
      var filePath := host.activeFilePath;
      var link := host.GetFirstLinkpathDest(linkPath, filePath);
      if link.None? {
        return;
      }
      host.Call(PromptForFileRename(link.value));
    }
  }
}
