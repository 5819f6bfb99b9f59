/**
 * src/util.ts: `path.parse`, `path.join` and `createDirectory`.
 *
 * Obsidian's `normalizePath` is not part of this model; `NormalizePath` below does
 * exactly the three things its documentation lists (util.ts:39-43): separators become
 * '/', runs of '/' collapse to one, a trailing '/' is dropped.
 */
module PathUtil {
  import opened Text
  import opened Host

  predicate IsSep(c: char) { c == '/' || c == '\\' }

  /** No separator at all. */
  predicate NoSep(t: string) { forall i :: 0 <= i < |t| ==> !IsSep(t[i]) }

  /** No two '/' in a row. */
  predicate NoDoubleSlash(s: string)
  {
    forall i :: 0 <= i < |s| - 1 ==> !(s[i] == '/' && s[i + 1] == '/')
  }

  /** The shape `normalizePath` promises: '/' separators only, none doubled, none trailing. */
  predicate IsNormalized(s: string)
  {
    '\\' !in s && NoDoubleSlash(s) && (s == [] || s[|s| - 1] != '/')
  }

  /** `s` with its separators taken out: the part of a path normalization must keep. */
  function Unseparated(s: string): string
  {
    if s == [] then [] else (if IsSep(s[0]) then [] else [s[0]]) + Unseparated(s[1..])
  }

  lemma {:induction false} UnseparatedAppend(a: string, b: string)
    ensures Unseparated(a + b) == Unseparated(a) + Unseparated(b)
  {
    if a == [] {
      assert a + b == b;
    } else {
      var x := if IsSep(a[0]) then [] else [a[0]];
      assert (a + b)[1..] == a[1..] + b && (a + b)[0] == a[0];
      UnseparatedAppend(a[1..], b);
      calc {
        Unseparated(a + b);
        x + Unseparated(a[1..] + b);
        x + (Unseparated(a[1..]) + Unseparated(b));
        (x + Unseparated(a[1..])) + Unseparated(b);
      }
    }
  }

  // ---------------------------------------------------------------------------
  // normalizePath, as documented
  // ---------------------------------------------------------------------------

  /** Every '\' becomes '/'. */
  function ToSlashes(s: string): (r: string)
    ensures |r| == |s| && '\\' !in r
    ensures forall i :: 0 <= i < |s| ==> r[i] == (if s[i] == '\\' then '/' else s[i])
    ensures Unseparated(r) == Unseparated(s)
    ensures '\\' !in s ==> r == s
    ensures s != [] ==> (r[|r| - 1] == '/' <==> IsSep(s[|s| - 1]))
    ensures s != [] ==> (r[0] == '/' <==> IsSep(s[0]))
  {
    if s == [] then []
    else
      var t := ToSlashes(s[1..]);
      assert forall i :: 1 <= i < |s| ==> s[i] == s[1..][i - 1];
      [if s[0] == '\\' then '/' else s[0]] + t
  }

  lemma AppendAssoc(x: string, y: string, z: string)
    ensures x + (y + z) == (x + y) + z
  {
  }

  /** One step of `ToSlashes`. */
  lemma ToSlashesCons(x: char, t: string)
    ensures ToSlashes([x] + t) == [if x == '\\' then '/' else x] + ToSlashes(t)
  {
    assert ([x] + t)[1..] == t;
  }

  lemma {:induction false} ToSlashesAppend(a: string, b: string)
    ensures ToSlashes(a + b) == ToSlashes(a) + ToSlashes(b)
  {
    if a == [] {
      assert a + b == b;
    } else {
      var x := [if a[0] == '\\' then '/' else a[0]];
      var t := a[1..];
      assert a + b == [a[0]] + (t + b) && a == [a[0]] + t;
      ToSlashesCons(a[0], t + b);
      ToSlashesCons(a[0], t);
      ToSlashesAppend(t, b);
      AppendAssoc(x, ToSlashes(t), ToSlashes(b));
      calc {
        ToSlashes(a + b);
        ToSlashes([a[0]] + (t + b));
        x + ToSlashes(t + b);
        x + (ToSlashes(t) + ToSlashes(b));
        (x + ToSlashes(t)) + ToSlashes(b);
        ToSlashes([a[0]] + t) + ToSlashes(b);
        ToSlashes(a) + ToSlashes(b);
      }
    }
  }

  /** Each run of '/' becomes a single '/'. */
  function CollapseSlashes(s: string): (r: string)
    ensures NoDoubleSlash(r)
    ensures s != [] ==> r != [] && r[0] == s[0] && r[|r| - 1] == s[|s| - 1]
  {
    if |s| <= 1 then s
    else if s[0] == '/' && s[1] == '/' then CollapseSlashes(s[1..])
    else [s[0]] + CollapseSlashes(s[1..])
  }

  /** Collapsing removes only '/' characters. */
  lemma {:induction false} CollapseRemovesOnlySlashes(s: string)
    ensures '\\' !in s ==> '\\' !in CollapseSlashes(s)
    ensures Unseparated(CollapseSlashes(s)) == Unseparated(s)
  {
    if |s| > 1 {
      var t := s[1..];
      assert s == [s[0]] + t && t[0] == s[1];
      CollapseCons(s[0], t);
      CollapseRemovesOnlySlashes(t);
      UnseparatedAppend([s[0]], t);
      if s[0] == '/' && s[1] == '/' {
        assert Unseparated([s[0]]) == [];
      } else {
        UnseparatedAppend([s[0]], CollapseSlashes(t));
      }
    }
  }

  /** A path without doubled '/' is left as it is. */
  lemma {:induction false} CollapseKeepsClean(s: string)
    requires NoDoubleSlash(s)
    ensures CollapseSlashes(s) == s
  {
    if |s| > 1 {
      CollapseKeepsClean(s[1..]);
      assert s == [s[0]] + s[1..];
    }
  }

  /** One step of collapsing, for a first character `x` in front of a non-empty rest. */
  lemma CollapseCons(x: char, t: string)
    requires t != []
    ensures CollapseSlashes([x] + t)
            == if x == '/' && t[0] == '/' then CollapseSlashes(t) else [x] + CollapseSlashes(t)
  {
    assert ([x] + t)[1..] == t;
  }

  /** A non-empty string in front of another is its first character, then the rest of both. */
  lemma ConsSplit(a: string, b: string)
    requires a != []
    ensures a + b == [a[0]] + (a[1..] + b) && a == [a[0]] + a[1..]
    ensures |a| > 1 ==> (a[1..] + b)[0] == a[1]
  {
  }

  /** Collapsing distributes over a join point where the right part does not start with '/'. */
  lemma {:induction false} CollapseAppend(a: string, b: string)
    requires b != [] && b[0] != '/'
    ensures CollapseSlashes(a + b) == CollapseSlashes(a) + CollapseSlashes(b)
  {
    if a == [] {
      assert a + b == b;
    } else if |a| == 1 {
      ConsSplit(a, b);
      CollapseCons(a[0], b);
    } else {
      var u := a[1..];
      var t := u + b;
      ConsSplit(a, b);
      CollapseCons(a[0], t);
      CollapseCons(a[0], u);
      CollapseAppend(u, b);
      if a[0] == '/' && u[0] == '/' {
        calc {
          CollapseSlashes(a + b);
          CollapseSlashes(t);
          CollapseSlashes(u) + CollapseSlashes(b);
          CollapseSlashes(a) + CollapseSlashes(b);
        }
      } else {
        AppendAssoc([a[0]], CollapseSlashes(u), CollapseSlashes(b));
        calc {
          CollapseSlashes(a + b);
          [a[0]] + CollapseSlashes(t);
          [a[0]] + (CollapseSlashes(u) + CollapseSlashes(b));
          ([a[0]] + CollapseSlashes(u)) + CollapseSlashes(b);
          CollapseSlashes(a) + CollapseSlashes(b);
        }
      }
    }
  }

  /** `normalizePath`, as its documentation at util.ts:39-43 describes it. */
  function NormalizePath(s: string): (r: string)
    ensures IsNormalized(r)
    ensures Unseparated(r) == Unseparated(s)
  {
    var c := CollapseSlashes(ToSlashes(s));
    CollapseRemovesOnlySlashes(ToSlashes(s));
    if c != [] && c[|c| - 1] == '/' then
      assert c == c[..|c| - 1] + ['/'];
      UnseparatedAppend(c[..|c| - 1], ['/']);
      assert |c| > 1 ==> c[|c| - 2] != '/';
      c[..|c| - 1]
    else c
  }

  /** A path is left unchanged by `NormalizePath` exactly when it already has the normalized shape. */
  lemma NormalizedIsFixpoint(s: string)
    ensures NormalizePath(s) == s <==> IsNormalized(s)
  {
    if IsNormalized(s) {
      assert ToSlashes(s) == s;
      CollapseKeepsClean(s);
      assert CollapseSlashes(ToSlashes(s)) == s;
    }
  }

  /** Normalizing twice is normalizing once. */
  lemma NormalizePathIdempotent(s: string)
    ensures NormalizePath(NormalizePath(s)) == NormalizePath(s)
  {
    NormalizedIsFixpoint(NormalizePath(s));
  }

  // ---------------------------------------------------------------------------
  // path.join
  // ---------------------------------------------------------------------------

  /** Each argument trimmed, as `strings.map((s) => String(s).trim())` does. */
  function TrimAll(parts: seq<string>): (r: seq<string>)
    ensures |r| == |parts| && forall i :: 0 <= i < |parts| ==> r[i] == Trim(parts[i])
  {
    seq(|parts|, i requires 0 <= i < |parts| => Trim(parts[i]))
  }

  /**
   * `path.join(...parts)`: the trimmed parts joined with '/' and normalized. The
   * `.filter((s) => s != null)` step keeps every trimmed string, so it is left out.
   */
  function Join(parts: seq<string>): (r: string)
    ensures IsNormalized(r)
    ensures Unseparated(r) == Unseparated(JoinWith(TrimAll(parts), '/'))
  {
    NormalizePath(JoinWith(TrimAll(parts), '/'))
  }

  /** `path.join(a, b)` keeps the characters of the trimmed `a`, then those of the trimmed `b`. */
  lemma JoinOfTwo(a: string, b: string)
    ensures Unseparated(Join([a, b])) == Unseparated(Trim(a)) + Unseparated(Trim(b))
  {
    var parts := TrimAll([a, b]);
    assert parts == [Trim(a), Trim(b)] && parts[1..] == [Trim(b)];
    assert JoinWith(parts, '/') == Trim(a) + ['/'] + Trim(b);
    UnseparatedAppend(Trim(a) + ['/'], Trim(b));
    UnseparatedAppend(Trim(a), ['/']);
  }

  // ---------------------------------------------------------------------------
  // path.parse
  // ---------------------------------------------------------------------------

  /** The name `path.parse` gives a path that ends in a separator or is empty. */
  const Untitled: string := "Untitled"

  /** `ParsedPath`: a directory part and a file name. */
  datatype ParsedPath = ParsedPath(dir: string, name: string)

  /*
   * The group `(?<dir>([^/\\]+[/\\])*)` of the regular expression at util.ts:32, as an
   * automaton: `DirGroup` is the state at the start of a repetition (accepting) and
   * `DirSegment` the state after at least one non-separator of a repetition.
   */
  predicate DirGroup(t: string)
    decreases |t|
  {
    t == [] || (!IsSep(t[0]) && DirSegment(t[1..]))
  }

  predicate DirSegment(t: string)
    decreases |t|
  {
    t != [] && if IsSep(t[0]) then DirGroup(t[1..]) else DirSegment(t[1..])
  }

  /** The regular expression matches `s` from `p`, its dir group spanning `s[p..e]` and its name group `s[e..]`. */
  ghost predicate MatchesAt(s: string, p: int, e: int)
  {
    0 <= p <= e <= |s| && DirGroup(s[p..e]) && forall j :: e <= j < |s| ==> !IsSep(s[j])
  }

  lemma {:induction false} DirGroupEndsWithSep(t: string)
    requires DirGroup(t) && t != []
    ensures IsSep(t[|t| - 1])
    decreases |t|, 1
  {
    DirSegmentEndsWithSep(t[1..]);
  }

  lemma {:induction false} DirSegmentEndsWithSep(t: string)
    requires DirSegment(t)
    ensures IsSep(t[|t| - 1])
    decreases |t|, 0
  {
    if IsSep(t[0]) {
      if t[1..] != [] {
        DirGroupEndsWithSep(t[1..]);
      }
    } else {
      DirSegmentEndsWithSep(t[1..]);
    }
  }

  /** Where the name group starts: just after the last separator, or 0. */
  function NameStart(s: string): (e: nat)
    ensures e <= |s| && forall j :: e <= j < |s| ==> !IsSep(s[j])
    ensures e == 0 || IsSep(s[e - 1])
  {
    if s == [] then 0
    else if IsSep(s[|s| - 1]) then |s|
    else NameStart(s[..|s| - 1])
  }

  /** The leftmost start at or after `p` from which the dir group reaches `e`. */
  function MatchStart(s: string, e: nat, p: nat): (r: nat)
    requires p <= e <= |s|
    ensures p <= r <= e && DirGroup(s[r..e])
    ensures forall q :: p <= q < r ==> !DirGroup(s[q..e])
    decreases e - p
  {
    if DirGroup(s[p..e]) then p
    else
      assert p != e by { assert s[e..e] == []; }
      MatchStart(s, e, p + 1)
  }

  /**
   * The two groups of `String(pathString).match(regex)`. The match always succeeds
   * (at worst with an empty dir group just after the last separator), so the
   * `?? { dir: "", name: "" }` fallback of util.ts:34 is never taken.
   */
  function RegexGroups(s: string): (m: ParsedPath)
    ensures NoSep(m.name)
    ensures m.dir == [] || IsSep(m.dir[|m.dir| - 1])
    ensures |m.dir| + |m.name| <= |s| && m.dir + m.name == s[|s| - |m.dir| - |m.name|..]
  {
    var e := NameStart(s);
    var p := MatchStart(s, e, 0);
    GroupsShape(s, p, e);
    ParsedPath(s[p..e], s[e..])
  }

  /** Cut at `p` and `e`, where `e` follows the last separator: the shape of the two groups. */
  lemma GroupsShape(s: string, p: nat, e: nat)
    requires p <= e <= |s| && (e == 0 || IsSep(s[e - 1]))
    requires forall j :: e <= j < |s| ==> !IsSep(s[j])
    ensures NoSep(s[e..])
    ensures s[p..e] == [] || IsSep(s[p..e][|s[p..e]| - 1])
    ensures s[p..e] + s[e..] == s[|s| - |s[p..e]| - |s[e..]|..]
  {
    var dir, name := s[p..e], s[e..];
    assert dir + name == s[p..];
    assert dir != [] ==> dir[|dir| - 1] == s[e - 1];
    assert forall j :: 0 <= j < |name| ==> name[j] == s[e + j];
  }

  /**
   * The groups are those of the leftmost match, as JavaScript's `match` picks it, and
   * at that start the dir group can end in one place only.
   */
  lemma RegexGroupsAreLeftmostMatch(s: string)
    ensures var m := RegexGroups(s);
            var p := |s| - |m.dir| - |m.name|;
            var e := |s| - |m.name|;
            && MatchesAt(s, p, e)
            && (forall f :: MatchesAt(s, p, f) ==> f == e)
            && (forall q, f :: 0 <= q < p ==> !MatchesAt(s, q, f))
  {
    var e := NameStart(s);
    var p := MatchStart(s, e, 0);
    forall q, f | 0 <= q <= p && MatchesAt(s, q, f)
      ensures f == e && q == p
    {
      if f > q {
        DirGroupEndsWithSep(s[q..f]);
      }
    }
  }

  /**
   * `path.parse(pathString)`: the regex groups, with an empty name replaced by
   * "Untitled". The name is never empty and never holds a separator; the directory is
   * empty or ends with a separator; and unless the name is the default, directory and
   * name together are a suffix of the input.
   */
  function Parse(s: string): (r: ParsedPath)
    ensures r.name != [] && NoSep(r.name)
    ensures r.dir == [] || IsSep(r.dir[|r.dir| - 1])
    ensures r.name == Untitled || (|r.dir| + |r.name| <= |s| && r.dir + r.name == s[|s| - |r.dir| - |r.name|..])
    ensures s == [] ==> r == ParsedPath([], Untitled)
  {
    var m := RegexGroups(s);
    if m.name == [] then
      assert NoSep(Untitled) by {
        assert Untitled == ['U', 'n', 't', 'i', 't', 'l', 'e', 'd'];
      }
      ParsedPath(m.dir, Untitled)
    else
      ParsedPath(m.dir, m.name)
  }

  /** The name group starts right after a trailing separator followed by a separator-free name. */
  lemma {:induction false} NameStartAfterSep(w: string, name: string)
    requires w != [] && IsSep(w[|w| - 1]) && NoSep(name)
    ensures NameStart(w + name) == |w|
    decreases |name|
  {
    if name == [] {
      assert w + name == w;
    } else {
      var s := w + name;
      assert s[..|s| - 1] == w + name[..|name| - 1];
      NameStartAfterSep(w, name[..|name| - 1]);
    }
  }

  /**
   * `path.join(dir, name)` keeps the file name: a non-empty name with no separator and
   * no surrounding whitespace is what `path.parse` reads back as the name.
   */
  lemma JoinKeepsName(dir: string, name: string)
    requires name != [] && NoSep(name) && Trim(name) == name
    ensures Parse(Join([dir, name])).name == name
  {
    var parts := TrimAll([dir, name]);
    assert parts == [Trim(dir), name];
    assert parts[1..] == [name];
    assert JoinWith(parts, '/') == Trim(dir) + ['/'] + name;
    var c := NormalizeBeforeName(Trim(dir) + ['/'], name);
    NameStartAfterSep(c, name);
    assert (c + name)[|c|..] == name;
  }

  /**
   * `path.join(dir, name)` trims the name: what `path.parse` reads back as the name is
   * `name.trim()`, which differs from `name` when the name has whitespace at either end.
   */
  lemma JoinTrimsName(dir: string, name: string)
    requires Trim(name) != [] && NoSep(Trim(name))
    ensures Parse(Join([dir, name])).name == Trim(name)
  {
    TrimIdempotent(name);
    assert TrimAll([dir, name]) == TrimAll([dir, Trim(name)]);
    JoinKeepsName(dir, Trim(name));
  }

  /**
   * Normalizing a path that ends in a separator-free name: the normalized front,
   * ending in '/', followed by the name unchanged.
   */
  lemma NormalizeBeforeName(w: string, name: string) returns (c: string)
    requires w != [] && w[|w| - 1] == '/'
    requires name != [] && NoSep(name)
    ensures c != [] && c[|c| - 1] == '/'
    ensures NormalizePath(w + name) == c + name
  {
    ToSlashesAppend(w, name);
    var u := ToSlashes(w);
    assert '\\' !in name by {
      forall i | 0 <= i < |name| ensures name[i] != '\\' { assert !IsSep(name[i]); }
    }
    assert ToSlashes(w + name) == u + name;
    assert name[0] != '/' by { assert !IsSep(name[0]); }
    CollapseAppend(u, name);
    assert NoDoubleSlash(name) by {
      forall i | 0 <= i < |name| - 1 ensures name[i] != '/' { assert !IsSep(name[i]); }
    }
    CollapseKeepsClean(name);
    c := CollapseSlashes(u);
    assert CollapseSlashes(u + name) == c + name;
    assert (c + name)[|c + name| - 1] == name[|name| - 1];
    assert name[|name| - 1] != '/' by { assert !IsSep(name[|name| - 1]); }
  }

  /** `path.parse` as the code behaves: a leading separator is not part of the match. */
  lemma ParseDropsLeadingSeparator()
    ensures Parse("/a/b") == ParsedPath("a/", "b")
  {
    var s := "/a/b";
    assert s == "/a/" + "b";
    NameStartAfterSep("/a/", "b");
    assert s[0..3] == "/a/" && !DirGroup(s[0..3]);
    assert DirSegment("/") && DirGroup("a/");
    assert s[1..3] == "a/";
    assert MatchStart(s, 3, 0) == 1;
    assert s[3..] == "b";
  }

  // ---------------------------------------------------------------------------
  // createDirectory
  // ---------------------------------------------------------------------------

  /** `parts.filter((part) => part.trim() !== "")`. */
  function NonBlank(parts: seq<string>): seq<string>
  {
    if parts == [] then []
    else if Trim(parts[0]) != [] then [parts[0]] + NonBlank(parts[1..])
    else NonBlank(parts[1..])
  }

  /**
   * The filter keeps exactly the parts that are not blank: each part it keeps is one of
   * `parts` and not blank, every part that is not blank is kept, and with no blank part
   * the list is unchanged. `NonBlankAppend` adds that the order is kept.
   */
  lemma {:induction false} NonBlankSpec(parts: seq<string>)
    ensures var r := NonBlank(parts);
            && (forall i :: 0 <= i < |r| ==> r[i] in parts && Trim(r[i]) != [])
            && (forall i :: 0 <= i < |parts| && Trim(parts[i]) != [] ==> parts[i] in r)
            && ((forall i :: 0 <= i < |parts| ==> Trim(parts[i]) != []) ==> r == parts)
  {
    NonBlankSound(parts);
    NonBlankComplete(parts);
    if forall i :: 0 <= i < |parts| ==> Trim(parts[i]) != [] {
      NonBlankUnchanged(parts);
    }
  }

  lemma {:induction false} NonBlankSound(parts: seq<string>)
    ensures var r := NonBlank(parts);
            forall i :: 0 <= i < |r| ==> r[i] in parts && Trim(r[i]) != []
  {
    if parts != [] {
      var rest := parts[1..];
      NonBlankSound(rest);
      NonBlankCons(parts[0], rest);
      assert parts == [parts[0]] + rest;
    }
  }

  lemma {:induction false} NonBlankComplete(parts: seq<string>)
    ensures forall i :: 0 <= i < |parts| && Trim(parts[i]) != [] ==> parts[i] in NonBlank(parts)
  {
    if parts != [] {
      var rest := parts[1..];
      NonBlankComplete(rest);
      NonBlankCons(parts[0], rest);
      assert forall i :: 1 <= i < |parts| ==> parts[i] == rest[i - 1];
    }
  }

  lemma {:induction false} NonBlankUnchanged(parts: seq<string>)
    requires forall i :: 0 <= i < |parts| ==> Trim(parts[i]) != []
    ensures NonBlank(parts) == parts
  {
    if parts != [] {
      var rest := parts[1..];
      assert forall i :: 0 <= i < |rest| ==> rest[i] == parts[i + 1];
      NonBlankUnchanged(rest);
      NonBlankKeep(parts[0], rest);
      assert parts == [parts[0]] + rest;
    }
  }

  /** Filtering a concatenation filters each side and keeps their order. */
  lemma {:induction false} NonBlankAppend(a: seq<string>, b: seq<string>)
    ensures NonBlank(a + b) == NonBlank(a) + NonBlank(b)
  {
    if a == [] {
      assert a + b == b;
    } else {
      assert a + b == [a[0]] + (a[1..] + b) && a == [a[0]] + a[1..];
      NonBlankCons(a[0], a[1..] + b);
      NonBlankCons(a[0], a[1..]);
      NonBlankAppend(a[1..], b);
    }
  }

  /** The non-blank '/'-separated components of a path. */
  function Components(p: string): (r: seq<string>)
    ensures forall i :: 0 <= i < |r| ==> r[i] != [] && '/' !in r[i]
  {
    NonBlankSpec(Split(p, '/'));
    NonBlank(Split(p, '/'))
  }

  /** The components are exactly the '/'-separated pieces of `p` that are not blank. */
  lemma ComponentsSpec(p: string)
    ensures forall x :: x in Components(p) <==> x in Split(p, '/') && Trim(x) != []
  {
    var parts := Split(p, '/');
    NonBlankSpec(parts);
    forall x | x in parts && Trim(x) != [] ensures x in Components(p) {
      var i :| 0 <= i < |parts| && parts[i] == x;
    }
  }

  /** Entry `i` joins the first `i + 1` components with '/'. */
  function Prefixes(comps: seq<string>): (r: seq<string>)
    ensures |r| == |comps|
  {
    seq(|comps|, i requires 0 <= i < |comps| => JoinWith(comps[..i + 1], '/'))
  }

  /** The `subPaths` list of util.ts:85-88. */
  function SubPaths(p: string): (r: seq<string>)
    ensures |r| == |Components(p)|
    ensures |r| > 0 ==> r[|r| - 1] == JoinWith(Components(p), '/')
  {
    var comps := Components(p);
    TakeAll(comps);
    Prefixes(comps)
  }

  /**
   * The sub-path list is a chain: it starts with the first component, and each entry
   * extends the one before by '/' and the next component, so each is a proper
   * prefix of the next (shortest first).
   */
  lemma PrefixesChain(comps: seq<string>)
    ensures var r := Prefixes(comps);
            && (|r| > 0 ==> r[0] == comps[0])
            && (forall k :: 0 <= k < |r| - 1 ==> r[k + 1] == r[k] + ['/'] + comps[k + 1])
            && (forall k :: 0 <= k < |r| - 1 ==> |r[k]| < |r[k + 1]| && r[k] <= r[k + 1])
  {
    var r := Prefixes(comps);
    if |r| > 0 {
      assert comps[..1] == [comps[0]];
    }
    forall k | 0 <= k < |r| - 1
      ensures r[k + 1] == r[k] + ['/'] + comps[k + 1]
    {
      assert comps[..k + 2] == comps[..k + 1] + [comps[k + 1]];
      JoinWithSnoc(comps[..k + 1], comps[k + 1], '/');
    }
  }

  /** When no component is blank, the last sub-path is the path itself. */
  lemma SubPathsEndAtPath(p: string)
    requires forall i :: 0 <= i < |Split(p, '/')| ==> Trim(Split(p, '/')[i]) != []
    ensures |SubPaths(p)| > 0 && SubPaths(p)[|SubPaths(p)| - 1] == p
  {
    NonBlankSpec(Split(p, '/'));
    assert Components(p) == Split(p, '/');
    JoinSplit(p, '/');
  }

  /** The index of the first occurrence of `x` in `t`. */
  function IndexOf(t: seq<string>, x: string): (i: nat)
    requires x in t
    ensures i < |t| && t[i] == x && x !in t[..i]
  {
    if t[0] == x then 0
    else
      assert t == [t[0]] + t[1..];
      var j := IndexOf(t[1..], x);
      assert t[..j + 1] == [t[0]] + t[1..][..j];
      1 + j
  }

  lemma {:induction false} IndexOfSnoc(t: seq<string>, x: string, y: string)
    requires y in t
    ensures IndexOf(t + [x], y) == IndexOf(t, y)
  {
    if t[0] != y {
      assert (t + [x])[1..] == t[1..] + [x];
      IndexOfSnoc(t[1..], x, y);
    }
  }

  lemma IndexOfLast(t: seq<string>, x: string)
    requires x !in t
    ensures IndexOf(t + [x], x) == |t|
  {
  }

  /** The directories a run of recursive `mkdir`s of `paths` leaves in place. */
  function Made(paths: seq<string>): set<string>
    decreases |paths|
  {
    if paths == [] then {} else Made(paths[..|paths| - 1]) + Ancestors(paths[|paths| - 1])
  }

  /** The directories made are exactly the planned paths and their ancestors. */
  lemma {:induction false} MadeSpec(paths: seq<string>)
    ensures forall p :: p in paths ==> Ancestors(p) <= Made(paths)
    ensures forall q :: q in Made(paths) ==> exists p :: p in paths && q in Ancestors(p)
    decreases |paths|
  {
    if paths != [] {
      var front := paths[..|paths| - 1];
      assert paths == front + [paths[|paths| - 1]];
      MadeSpec(front);
    }
  }

  /** One more `mkdir`: its path and that path's ancestors are added. */
  lemma MadeSnoc(paths: seq<string>, x: string)
    ensures Made(paths + [x]) == Made(paths) + Ancestors(x)
  {
    assert (paths + [x])[..|paths|] == paths;
  }

  /**
   * The loop of util.ts:91-96 as a list: the targets that do not exist yet, in
   * order. A target that an earlier step created, itself or as an ancestor of the
   * path it made, is not created again.
   */
  function Missing(existing: set<string>, targets: seq<string>): (r: seq<string>)
    ensures |r| <= |targets|
    decreases |targets|
  {
    if targets == [] then []
    else
      var front := targets[..|targets| - 1];
      var x := targets[|targets| - 1];
      var m := Missing(existing, front);
      if x in existing || x in Made(m) then m else m + [x]
  }

  /**
   * `Missing` plans only targets that do not exist, never one that an earlier `mkdir`
   * of the plan created, in the order of the target list; once it has run, every
   * target exists.
   */
  lemma MissingSpec(existing: set<string>, targets: seq<string>)
    ensures var r := Missing(existing, targets);
            && (forall i :: 0 <= i < |r| ==> r[i] in targets && r[i] !in existing)
            && (forall i :: 0 <= i < |r| ==> r[i] !in Made(r[..i]))
            && (forall x :: x in targets ==> x in existing || x in Made(r))
            && (forall i, j :: 0 <= i < j < |r| ==> IndexOf(targets, r[i]) < IndexOf(targets, r[j]))
  {
    MissingPlansAbsent(existing, targets);
    MissingNeverRemakes(existing, targets);
    MissingCovers(existing, targets);
    MissingInOrder(existing, targets);
  }

  /** The last target is planned exactly when it neither exists nor was made yet. */
  lemma MissingSnoc(existing: set<string>, targets: seq<string>)
    requires targets != []
    ensures var front, x := targets[..|targets| - 1], targets[|targets| - 1];
            var m := Missing(existing, front);
            Missing(existing, targets) == if x in existing || x in Made(m) then m else m + [x]
  {
  }

  /** Only targets that do not exist are planned. */
  lemma {:induction false} MissingPlansAbsent(existing: set<string>, targets: seq<string>)
    ensures var r := Missing(existing, targets);
            forall i :: 0 <= i < |r| ==> r[i] in targets && r[i] !in existing
    decreases |targets|
  {
    if targets != [] {
      var front := targets[..|targets| - 1];
      var x := targets[|targets| - 1];
      assert targets == front + [x];
      MissingPlansAbsent(existing, front);
      MissingSnoc(existing, targets);
    }
  }

  /** No planned path is one that an earlier `mkdir` of the plan created. */
  lemma {:induction false} MissingNeverRemakes(existing: set<string>, targets: seq<string>)
    ensures var r := Missing(existing, targets);
            forall i :: 0 <= i < |r| ==> r[i] !in Made(r[..i])
    decreases |targets|
  {
    if targets != [] {
      var front := targets[..|targets| - 1];
      var x := targets[|targets| - 1];
      MissingNeverRemakes(existing, front);
      MissingSnoc(existing, targets);
      var m := Missing(existing, front);
      if !(x in existing || x in Made(m)) {
        var r := m + [x];
        forall i | 0 <= i < |r| ensures r[i] !in Made(r[..i]) {
          if i < |m| {
            assert r[..i] == m[..i] && r[i] == m[i];
            assert m[i] !in Made(m[..i]);
          } else {
            assert r[..i] == m;
          }
        }
      }
    }
  }

  /** Once the plan has run, every target exists. */
  lemma {:induction false} MissingCovers(existing: set<string>, targets: seq<string>)
    ensures forall x :: x in targets ==> x in existing || x in Made(Missing(existing, targets))
    decreases |targets|
  {
    if targets != [] {
      var front := targets[..|targets| - 1];
      var x := targets[|targets| - 1];
      assert targets == front + [x];
      MissingCovers(existing, front);
      MissingSnoc(existing, targets);
      var m := Missing(existing, front);
      if !(x in existing || x in Made(m)) {
        MadeSnoc(m, x);
        assert x in Ancestors(x);
      }
    }
  }

  /** The plan keeps the order of the target list. */
  lemma {:induction false} MissingInOrder(existing: set<string>, targets: seq<string>)
    ensures var r := Missing(existing, targets);
            && (forall i :: 0 <= i < |r| ==> r[i] in targets)
            && (forall i, j :: 0 <= i < j < |r| ==> IndexOf(targets, r[i]) < IndexOf(targets, r[j]))
    decreases |targets|
  {
    if targets != [] {
      var front := targets[..|targets| - 1];
      var x := targets[|targets| - 1];
      assert targets == front + [x];
      MissingInOrder(existing, front);
      MissingSnoc(existing, targets);
      var m := Missing(existing, front);
      forall i | 0 <= i < |m| ensures IndexOf(targets, m[i]) == IndexOf(front, m[i]) {
        IndexOfSnoc(front, x, m[i]);
      }
      if x in existing || x in Made(m) {
        assert Missing(existing, targets) == m;
      } else {
        MissingCovers(existing, front);
        InOrderSnoc(targets, front, m, x);
      }
    }
  }

  /** Appending the last target to an ordered plan of the earlier ones keeps it ordered. */
  lemma InOrderSnoc(targets: seq<string>, front: seq<string>, m: seq<string>, x: string)
    requires targets == front + [x] && x !in front
    requires forall i :: 0 <= i < |m| ==> m[i] in front
    requires forall i :: 0 <= i < |m| ==> IndexOf(targets, m[i]) == IndexOf(front, m[i])
    requires forall i, j :: 0 <= i < j < |m| ==> IndexOf(front, m[i]) < IndexOf(front, m[j])
    ensures var r := m + [x];
            && (forall i :: 0 <= i < |r| ==> r[i] in targets)
            && (forall i, j :: 0 <= i < j < |r| ==> IndexOf(targets, r[i]) < IndexOf(targets, r[j]))
  {
    IndexOfLast(front, x);
  }

  /** One more target: it is appended exactly when it neither exists nor was made yet. */
  lemma MissingStep(existing: set<string>, t: seq<string>, i: nat)
    requires i < |t|
    ensures t[i] in existing || t[i] in Made(Missing(existing, t[..i])) ==>
              Missing(existing, t[..i + 1]) == Missing(existing, t[..i])
    ensures t[i] !in existing && t[i] !in Made(Missing(existing, t[..i])) ==>
              Missing(existing, t[..i + 1]) == Missing(existing, t[..i]) + [t[i]]
  {
    assert t[..i + 1][..i] == t[..i];
  }

  /** Nothing is created when every target exists already. */
  lemma MissingWhenAllExist(existing: set<string>, targets: seq<string>)
    requires forall x :: x in targets ==> x in existing
    ensures Missing(existing, targets) == []
  {
    MissingSpec(existing, targets);
  }

  /** Each sub-path joined to the vault root. */
  function Rooted(root: string, subPaths: seq<string>): (r: seq<string>)
    ensures |r| == |subPaths|
    ensures forall i :: 0 <= i < |r| ==> r[i] == Join([root, subPaths[i]])
  {
    seq(|subPaths|, i requires 0 <= i < |subPaths| => Join([root, subPaths[i]]))
  }

  /**
   * The vault paths the mobile loop checks: one normalized path per non-blank component
   * of the normalized directory path, the root joined with the sub-path ending there.
   */
  function RootedSubPaths(root: string, directoryPath: string): (r: seq<string>)
    ensures |r| == |Components(NormalizePath(directoryPath))|
    ensures forall i :: 0 <= i < |r| ==> IsNormalized(r[i])
    ensures forall i :: 0 <= i < |r| ==> r[i] == Join([root, SubPaths(NormalizePath(directoryPath))[i]])
  {
    Rooted(root, SubPaths(NormalizePath(directoryPath)))
  }

  /**
   * The paths `createDirectory(vault, dir)` hands to `mkdir`, in order, given the
   * directories that exist. On desktop a missing directory gets one `mkdir` of the
   * whole path; otherwise (on iOS, or on desktop when the directory exists) each
   * rooted sub-path that does not exist yet is created.
   */
  function CreateDirectoryPlan(existing: set<string>, root: string, dir: string, isIosApp: bool): (r: seq<string>)
    ensures forall i :: 0 <= i < |r| ==> r[i] !in existing
  {
    var directoryPath := Join([root, dir]);
    if !isIosApp && directoryPath !in existing then
      NormalizedIsFixpoint(directoryPath);
      [NormalizePath(directoryPath)]
    else
      var targets := RootedSubPaths(root, directoryPath);
      MissingAvoidsExisting(existing, targets);
      Missing(existing, targets)
  }

  /** No planned path exists already. */
  lemma MissingAvoidsExisting(existing: set<string>, targets: seq<string>)
    ensures forall i :: 0 <= i < |Missing(existing, targets)| ==> Missing(existing, targets)[i] !in existing
  {
    MissingSpec(existing, targets);
  }

  /** On desktop, a missing directory is created with exactly one `mkdir` of its own path. */
  lemma DesktopCreatesDirectoryOnce(existing: set<string>, root: string, dir: string)
    requires Join([root, dir]) !in existing
    ensures CreateDirectoryPlan(existing, root, dir, false) == [Join([root, dir])]
  {
    NormalizedIsFixpoint(Join([root, dir]));
  }

  /**
   * On iOS, `mkdir` is called only for rooted sub-paths that do not exist, never for one
   * an earlier call created, in the order of the sub-path list (shortest first), and
   * every rooted sub-path that did not exist is itself created.
   */
  lemma MobileCreatesMissingSubPaths(existing: set<string>, root: string, dir: string)
    ensures var plan := CreateDirectoryPlan(existing, root, dir, true);
            var targets := RootedSubPaths(root, Join([root, dir]));
            && (forall i :: 0 <= i < |plan| ==> plan[i] in targets && plan[i] !in existing)
            && (forall i :: 0 <= i < |plan| ==> plan[i] !in Made(plan[..i]))
            && (forall i, j :: 0 <= i < j < |plan| ==> IndexOf(targets, plan[i]) < IndexOf(targets, plan[j]))
            && (forall x :: x in targets ==> x in existing || x in plan)
  {
    var targets := RootedSubPaths(root, Join([root, dir]));
    assert CreateDirectoryPlan(existing, root, dir, true) == Missing(existing, targets);
    MissingSpec(existing, targets);
    RootedSubPathsNotAncestors(root, Join([root, dir]));
    MissingPlansUnmade(existing, targets);
  }

  /**
   * When no target is an ancestor of an earlier one, the recursive `mkdir`s of the
   * earlier targets never create a later one, so each target that does not exist is
   * planned itself.
   */
  lemma {:induction false} MissingPlansUnmade(existing: set<string>, targets: seq<string>)
    requires forall i, j :: 0 <= i < j < |targets| ==> targets[j] !in Ancestors(targets[i])
    ensures forall x :: x in targets ==> x in existing || x in Missing(existing, targets)
    decreases |targets|
  {
    if targets != [] {
      var front := targets[..|targets| - 1];
      var x := targets[|targets| - 1];
      assert targets == front + [x];
      MissingPlansUnmade(existing, front);
      MissingPlansAbsent(existing, front);
      MissingSnoc(existing, targets);
      MadeSpec(Missing(existing, front));
    }
  }

  // The solid characters of a path (neither separators nor whitespace) survive trimming
  // and normalization, and each sub-path has more of them than the one before.

  predicate IsSolid(c: char) { !IsSep(c) && !IsWhitespace(c) }

  /** How many solid characters `s` holds. */
  function Solid(s: string): nat
  {
    if s == [] then 0 else (if IsSolid(s[0]) then 1 else 0) + Solid(s[1..])
  }

  lemma {:induction false} SolidAppend(a: string, b: string)
    ensures Solid(a + b) == Solid(a) + Solid(b)
  {
    if a == [] {
      assert a + b == b;
    } else {
      assert (a + b)[0] == a[0] && (a + b)[1..] == a[1..] + b;
      SolidAppend(a[1..], b);
    }
  }

  lemma {:induction false} SolidOfUnseparated(s: string)
    ensures Solid(Unseparated(s)) == Solid(s)
  {
    if s != [] {
      var x := if IsSep(s[0]) then [] else [s[0]];
      SolidOfUnseparated(s[1..]);
      SolidAppend(x, Unseparated(s[1..]));
      assert x != [] ==> x[1..] == [];
    }
  }

  lemma {:induction false} SolidOfBlank(s: string)
    requires forall i :: 0 <= i < |s| ==> IsWhitespace(s[i])
    ensures Solid(s) == 0
  {
    if s != [] {
      assert forall i :: 0 <= i < |s[1..]| ==> s[1..][i] == s[i + 1];
      SolidOfBlank(s[1..]);
    }
  }

  /** Trimming removes whitespace only. */
  lemma SolidOfTrim(s: string)
    ensures Solid(Trim(s)) == Solid(s)
  {
    TrimSpec(s);
    var k, r := LeadingWhitespace(s), Trim(s);
    var a, c := s[..k], s[k + |r|..];
    assert s == a + r + c;
    assert forall i :: 0 <= i < |a| ==> a[i] == s[i];
    assert forall i :: 0 <= i < |c| ==> c[i] == s[k + |r| + i];
    SolidOfBlank(a);
    SolidOfBlank(c);
    SolidAppend(a + r, c);
    SolidAppend(a, r);
  }

  /** `path.join(a, b)` keeps the solid characters of `a`, then those of `b`. */
  lemma SolidOfJoin(a: string, b: string)
    ensures Solid(Join([a, b])) == Solid(a) + Solid(b)
  {
    JoinOfTwo(a, b);
    SolidOfUnseparated(Join([a, b]));
    SolidAppend(Unseparated(Trim(a)), Unseparated(Trim(b)));
    SolidOfUnseparated(Trim(a));
    SolidOfUnseparated(Trim(b));
    SolidOfTrim(a);
    SolidOfTrim(b);
  }

  /** An ancestor has no more solid characters than the path it is an ancestor of. */
  lemma SolidOfAncestor(q: string, t: string)
    requires q in Ancestors(t)
    ensures Solid(q) <= Solid(t)
  {
    assert t == q + t[|q|..];
    SolidAppend(q, t[|q|..]);
  }

  /** A part with no separator that is not blank has a solid character. */
  lemma SolidOfComponent(c: string)
    requires NoSep(c) && Trim(c) != []
    ensures Solid(c) > 0
  {
    TrimInside(c);
    TrimEnds(c);
    var r := Trim(c);
    assert r[0] == c[LeadingWhitespace(c)];
    SolidOfTrim(c);
  }

  /** A split piece holds only characters of the string split. */
  lemma {:induction false} SplitKeepsOut(s: string, c: char, d: char)
    requires d !in s
    ensures forall i :: 0 <= i < |Split(s, c)| ==> d !in Split(s, c)[i]
  {
    if s != [] {
      SplitKeepsOut(s[1..], c, d);
    }
  }

  /** Each sub-path has more solid characters than every sub-path before it. */
  lemma {:induction false} PrefixesGrow(comps: seq<string>, i: nat, j: nat)
    requires forall k :: 0 <= k < |comps| ==> Solid(comps[k]) > 0
    requires i < j < |comps|
    ensures Solid(Prefixes(comps)[i]) < Solid(Prefixes(comps)[j])
    decreases j
  {
    PrefixesChain(comps);
    var r := Prefixes(comps);
    SolidAppend(r[j - 1] + ['/'], comps[j]);
    SolidAppend(r[j - 1], ['/']);
    assert Solid(['/']) == 0 by { assert ['/'][1..] == []; }
    if i < j - 1 {
      PrefixesGrow(comps, i, j - 1);
    }
  }

  /**
   * No rooted sub-path the iOS loop visits is an ancestor of one it visited before, so
   * a recursive `mkdir` of an earlier one never creates a later one.
   */
  lemma RootedSubPathsNotAncestors(root: string, directoryPath: string)
    ensures var t := RootedSubPaths(root, directoryPath);
            forall i, j :: 0 <= i < j < |t| ==> t[j] !in Ancestors(t[i])
  {
    var p := NormalizePath(directoryPath);
    var parts := Split(p, '/');
    var comps := Components(p);
    var sub := SubPaths(p);
    var t := RootedSubPaths(root, directoryPath);
    SplitKeepsOut(p, '/', '\\');
    ComponentsSpec(p);
    forall k | 0 <= k < |comps| ensures Solid(comps[k]) > 0 {
      assert comps[k] in parts;
      SolidOfComponent(comps[k]);
    }
    assert sub == Prefixes(comps);
    forall i, j | 0 <= i < j < |t| ensures t[j] !in Ancestors(t[i]) {
      PrefixesGrow(comps, i, j);
      SolidOfJoin(root, sub[i]);
      SolidOfJoin(root, sub[j]);
      if t[j] in Ancestors(t[i]) {
        SolidOfAncestor(t[j], t[i]);
      }
    }
  }

  /** On desktop, the directory exists once its plan has run, whether it existed or not. */
  lemma DesktopCreatesDirectory(existing: set<string>, root: string, dir: string)
    ensures Join([root, dir]) in existing + Elements(CreateDirectoryPlan(existing, root, dir, false))
  {
    if Join([root, dir]) !in existing {
      DesktopCreatesDirectoryOnce(existing, root, dir);
    }
  }

  /** A normalized path that starts with '/' is what normalizing one more leading '/' gives. */
  lemma NormalizeAfterSlash(p: string)
    requires IsNormalized(p) && p != [] && p[0] == '/'
    ensures NormalizePath(['/'] + p) == p
  {
    var s := ['/'] + p;
    assert '\\' !in s by {
      forall i | 0 <= i < |s| ensures s[i] != '\\' { if i > 0 { assert s[i] == p[i - 1]; } }
    }
    assert ToSlashes(s) == s;
    assert s[1..] == p;
    CollapseKeepsClean(p);
    assert CollapseSlashes(s) == p;
  }

  /** Joining the vault root "/" with a trimmed path gives that path after one '/'. */
  lemma JoinUnderSlashRoot(q: string)
    requires Trim(q) == q && q != [] && q[0] != '/'
    requires IsNormalized(['/'] + q)
    ensures Join(["/", q]) == ['/'] + q
  {
    TrimOfTrimmed("/");
    assert TrimAll(["/", q]) == ["/", q];
    assert ["/", q][1..] == [q];
    assert JoinWith(["/", q], '/') == ['/'] + (['/'] + q);
    NormalizeAfterSlash(['/'] + q);
  }

  /** The components of `/q` when no '/'-part of `q` is blank: exactly the parts of `q`. */
  lemma ComponentsAfterSlash(q: string)
    requires forall i :: 0 <= i < |Split(q, '/')| ==> Trim(Split(q, '/')[i]) != []
    ensures Components(['/'] + q) == Split(q, '/')
  {
    SplitPrefix([], q, '/');
    assert [] + ['/'] + q == ['/'] + q;
    NonBlankCons([], Split(q, '/'));
    NonBlankSpec(Split(q, '/'));
  }

  /**
   * The sub-paths of `/q`, when no '/'-part of `q` is blank: the leading empty part is
   * dropped, and the last sub-path is `q`.
   */
  lemma SubPathsAfterSlash(q: string)
    requires forall i :: 0 <= i < |Split(q, '/')| ==> Trim(Split(q, '/')[i]) != []
    ensures |SubPaths(['/'] + q)| > 0 && SubPaths(['/'] + q)[|SubPaths(['/'] + q)| - 1] == q
  {
    ComponentsAfterSlash(q);
    JoinSplit(q, '/');
  }

  /** Under the vault root "/", the last rooted sub-path is the joined directory itself. */
  lemma SlashRootedLast(dir: string, q: string)
    requires Join(["/", dir]) == ['/'] + q
    requires Trim(q) == q
    requires forall i :: 0 <= i < |Split(q, '/')| ==> Trim(Split(q, '/')[i]) != []
    ensures var t := RootedSubPaths("/", Join(["/", dir]));
            |t| > 0 && t[|t| - 1] == Join(["/", dir])
  {
    var p := ['/'] + q;
    NormalizedIsFixpoint(p);
    SubPathsAfterSlash(q);
    assert q != [] && q[0] != '/' by {
      var x := Split(q, '/');
      assert x[0] <= q && Trim(x[0]) != [] && '/' !in x[0];
    }
    JoinUnderSlashRoot(q);
    LastRooted("/", p);
  }

  /** The last rooted sub-path joins the root with the last sub-path. */
  lemma LastRooted(root: string, p: string)
    requires IsNormalized(p) && |SubPaths(p)| > 0
    ensures var t, sub := RootedSubPaths(root, p), SubPaths(p);
            |t| > 0 && t[|t| - 1] == Join([root, sub[|sub| - 1]])
  {
    NormalizedIsFixpoint(p);
    var t, sub := RootedSubPaths(root, p), SubPaths(p);
    assert NormalizePath(p) == p;
    assert |t| == |sub|;
    assert t[|t| - 1] == Join([root, sub[|sub| - 1]]);
  }

  /**
   * On iOS with the vault root "/", the directory exists once its plan has run, when the
   * path after the root has no blank '/'-part and no whitespace at either end.
   */
  lemma MobileCreatesDirectory(existing: set<string>, dir: string, q: string)
    requires Join(["/", dir]) == ['/'] + q
    requires Trim(q) == q
    requires forall i :: 0 <= i < |Split(q, '/')| ==> Trim(Split(q, '/')[i]) != []
    ensures Join(["/", dir]) in existing + Elements(CreateDirectoryPlan(existing, "/", dir, true))
  {
    SlashRootedLast(dir, q);
    MobileCreatesMissingSubPaths(existing, "/", dir);
  }

  /** The '/'-parts of `w/b` for parts free of '/'. */
  lemma SplitTwo(w: string, b: string)
    requires '/' !in w && '/' !in b
    ensures Split(w + ['/'] + b, '/') == [w, b]
  {
    SplitPrefix(w, b, '/');
  }

  /** The '/'-parts of `a/w/b` for parts free of '/'. */
  lemma SplitThree(a: string, w: string, b: string)
    requires '/' !in a && '/' !in w && '/' !in b
    ensures Split(a + ['/'] + (w + ['/'] + b), '/') == [a, w, b]
  {
    SplitTwo(w, b);
    SplitPrefix(a, w + ['/'] + b, '/');
  }

  /** The '/'-parts of `/a/w/b` for parts free of '/'. */
  lemma SplitThreeAfterSlash(a: string, w: string, b: string)
    requires '/' !in a && '/' !in w && '/' !in b
    ensures Split(['/'] + (a + ['/'] + (w + ['/'] + b)), '/') == [[], a, w, b]
  {
    var u := a + ['/'] + (w + ['/'] + b);
    var s := ['/'] + u;
    SplitThree(a, w, b);
    assert s[0] == '/' && s[1..] == u;
    assert Split(s, '/') == [[]] + Split(u, '/');
    assert [[]] + [a, w, b] == [[], a, w, b];
  }

  /** Filtering the blank parts out of four parts, the first and third blank. */
  lemma NonBlankOfFour(e: string, a: string, w: string, b: string)
    requires Trim(e) == [] && Trim(a) != [] && Trim(w) == [] && Trim(b) != []
    ensures NonBlank([e, a, w, b]) == [a, b]
  {
    NonBlankKeep(b, []);
    NonBlankDrop(w, [b]);
    NonBlankKeep(a, [w, b]);
    NonBlankDrop(e, [a, w, b]);
    assert [e, a, w, b] == [e] + [a, w, b];
    assert [a, w, b] == [a] + [w, b];
    assert [w, b] == [w] + [b];
    assert [b] == [b] + [];
  }

  /** The components of `/a/w/b` when `w` is blank: the empty and the blank part are dropped. */
  lemma ComponentsWithBlankPart(a: string, w: string, b: string)
    requires '/' !in a && '/' !in w && '/' !in b
    requires Trim(a) != [] && Trim(w) == [] && Trim(b) != []
    ensures Components(['/'] + (a + ['/'] + (w + ['/'] + b))) == [a, b]
  {
    SplitThreeAfterSlash(a, w, b);
    NonBlankOfFour([], a, w, b);
  }

  /**
   * The rooted sub-paths the iOS loop of `createDirectory` visits for `/a/w/b` with a
   * blank `w`: `/a` and `/a/b`, never the path itself.
   */
  lemma RootedSubPathsWithBlankPart(p: string, a: string, w: string, b: string)
    requires p == ['/'] + (a + ['/'] + (w + ['/'] + b))
    requires '/' !in a && '/' !in w && '/' !in b
    requires Trim(a) == a && Trim(w) == [] && Trim(b) != [] && a != []
    requires Trim(a + ['/'] + b) == a + ['/'] + b
    requires IsNormalized(['/'] + a) && IsNormalized(['/'] + (a + ['/'] + b))
    requires IsNormalized(p)
    ensures RootedSubPaths("/", p) == [['/'] + a, ['/'] + (a + ['/'] + b)]
  {
    NormalizedIsFixpoint(p);
    ComponentsWithBlankPart(a, w, b);
    PrefixesOfTwo(a, b);
    JoinUnderSlashRoot(a);
    JoinUnderSlashRoot(a + ['/'] + b);
    RootedOfTwo("/", a, a + ['/'] + b);
  }

  /** On iOS the plan is the missing entries of the rooted sub-paths of the joined path. */
  lemma MobilePlan(existing: set<string>, root: string, dir: string)
    ensures CreateDirectoryPlan(existing, root, dir, true) == Missing(existing, RootedSubPaths(root, Join([root, dir])))
  {
  }

  /**
   * On desktop the one `mkdir` is recursive and creates the missing parents as well: with
   * nothing existing, `a/b` is created by a single call that leaves `/a` in place too,
   * and creating `a` afterwards calls nothing.
   */
  lemma DesktopCreatesParents()
    ensures CreateDirectoryPlan({}, "/", "a/b", false) == ["/a/b"]
    ensures Made(["/a/b"]) == {"/a", "/a/b"}
    ensures CreateDirectoryPlan({"/a", "/a/b"}, "/", "a", false) == []
  {
    ParentsJoins();
    DesktopCreatesDirectoryOnce({}, "/", "a/b");
    ParentsMade();
    ParentsComponents();
    ExistingOneComponent({"/a", "/a/b"}, "a", "a", "/a", false);
  }

  lemma ParentsJoins()
    ensures Join(["/", "a/b"]) == "/a/b" && Join(["/", "a"]) == "/a"
  {
    BlankPartTrims();
    assert ['/'] + "a/b" == "/a/b" && ['/'] + "a" == "/a";
    JoinUnderSlashRoot("a/b");
    JoinUnderSlashRoot("a");
  }

  lemma ParentsMade()
    ensures Made(["/a/b"]) == {"/a", "/a/b"}
  {
    assert [] + ["/a/b"] == ["/a/b"];
    MadeSnoc([], "/a/b");
    assert ['/'] + "a" + ['/'] + "b" == "/a/b" && ['/'] + "a" == "/a";
    AncestorsOfTwo("a", "b");
  }

  lemma ParentsComponents()
    ensures Components("/a") == ["a"] && IsNormalized("/a")
  {
    BlankPartTrims();
    assert ['/'] + "a" == "/a";
    ComponentsOfOne("a");
  }

  /** The ancestors of `/a/b` for parts free of '/': `/a` and the path itself. */
  lemma AncestorsOfTwo(a: string, b: string)
    requires '/' !in a && '/' !in b
    ensures Ancestors(['/'] + a + ['/'] + b) == {['/'] + a, ['/'] + a + ['/'] + b}
  {
    var p := ['/'] + a + ['/'] + b;
    var k := |a| + 1;
    assert p[k] == '/' && p[..k] == ['/'] + a;
    AncestorsSpec(p);
    forall q | q in Ancestors(p) ensures q == p || q == ['/'] + a {
      if q != p {
        assert q == p[..|q|];
      }
    }
  }

  /** Under the root "/", an existing directory of one component gets no `mkdir`. */
  lemma ExistingOneComponent(existing: set<string>, dir: string, c: string, t: string, isIosApp: bool)
    requires Join(["/", dir]) == t && t in existing && IsNormalized(t)
    requires Components(t) == [c] && Join(["/", c]) == t
    ensures CreateDirectoryPlan(existing, "/", dir, isIosApp) == []
  {
    FallThroughPlan(existing, "/", dir, isIosApp);
    NormalizedIsFixpoint(t);
    SubPathsOfOne(t, c);
    RootedOfOne("/", c);
    MissingWhenAllExist(existing, [t]);
  }

  /** A path longer than every planned path is not made by the plan. */
  lemma NotMadeWhenLonger(paths: seq<string>, x: string)
    requires forall i :: 0 <= i < |paths| ==> |paths[i]| < |x|
    ensures x !in Made(paths)
  {
    MadeSpec(paths);
    forall p | p in paths ensures x !in Ancestors(p) {
      AncestorsSpec(p);
    }
  }

  /**
   * On iOS a blank part of the path is filtered out of the sub-path list, so the
   * directory `/a/ /b` itself is never created: the plan stops at `/a/b`.
   */
  lemma MobileSkipsBlankPart()
    ensures Join(["/", "a/ /b"]) == "/a/ /b"
    ensures CreateDirectoryPlan({}, "/", "a/ /b", true) == ["/a", "/a/b"]
    ensures "/a/ /b" !in Made(CreateDirectoryPlan({}, "/", "a/ /b", true))
  {
    BlankPartJoin();
    BlankPartPlan();
    BlankPartNotMade();
  }

  lemma TrailingSpaceNotMade()
    ensures "/a " !in Made(["/a"])
  {
    NotMadeWhenLonger(["/a"], "/a ");
  }

  lemma BlankPartNotMade()
    ensures "/a/ /b" !in Made(["/a", "/a/b"])
  {
    NotMadeWhenLonger(["/a", "/a/b"], "/a/ /b");
  }

  /** The iOS plan for `a/ /b` with nothing existing yet. */
  lemma BlankPartPlan()
    ensures CreateDirectoryPlan({}, "/", "a/ /b", true) == ["/a", "/a/b"]
  {
    BlankPartPieces();
    BlankPartTrims();
    BlankPartJoin();
    MobileWithBlankPart("a/ /b", "/a/ /b", "a", " ", "b");
  }

  /** `/a/ /b` cut at its separators, and the sub-paths `/a` and `/a/b` glued back. */
  lemma BlankPartPieces()
    ensures ['/'] + ("a" + ['/'] + (" " + ['/'] + "b")) == "/a/ /b"
    ensures "a" + ['/'] + "b" == "a/b" && ['/'] + "a" == "/a" && ['/'] + ("a" + ['/'] + "b") == "/a/b"
  {
  }

  /** The trims and normal forms the `/a/ /b` example needs. */
  lemma BlankPartTrims()
    ensures Trim(" ") == [] && Trim("a") == "a" && Trim("b") == "b" && Trim("a/b") == "a/b"
    ensures IsNormalized("/a") && IsNormalized("/a/b")
  {
    assert Trim(" ") == [] by { assert TrimStart(" ") == TrimStart([]); }
    TrimOfTrimmed("a");
    TrimOfTrimmed("b");
    TrimOfTrimmed("a/b");
  }

  /** Joining the vault root "/" with `a/ /b`. */
  lemma BlankPartJoin()
    ensures Join(["/", "a/ /b"]) == "/a/ /b"
  {
    BlankPartJoinable();
    JoinUnderSlashRoot("a/ /b");
  }

  lemma BlankPartJoinable()
    ensures Trim("a/ /b") == "a/ /b" && IsNormalized("/a/ /b") && ['/'] + "a/ /b" == "/a/ /b"
  {
    TrimOfTrimmed("a/ /b");
  }

  /**
   * On iOS, with nothing existing yet, the plan for a `dir` whose joined path is
   * `p` = `/a/w/b` with a blank `w` creates `/a` and `/a/b` only.
   */
  lemma MobileWithBlankPart(dir: string, p: string, a: string, w: string, b: string)
    requires p == ['/'] + (a + ['/'] + (w + ['/'] + b))
    requires '/' !in a && '/' !in w && '/' !in b
    requires Trim(a) == a && Trim(w) == [] && Trim(b) != [] && a != []
    requires Trim(a + ['/'] + b) == a + ['/'] + b
    requires IsNormalized(['/'] + a) && IsNormalized(['/'] + (a + ['/'] + b))
    requires Join(["/", dir]) == p
    ensures CreateDirectoryPlan({}, "/", dir, true) == [['/'] + a, ['/'] + (a + ['/'] + b)]
  {
    MobilePlan({}, "/", dir);
    RootedSubPathsWithBlankPart(p, a, w, b);
    assert |['/'] + a| < |['/'] + (a + ['/'] + b)|;
    MissingOfTwoNew(['/'] + a, ['/'] + (a + ['/'] + b));
  }

  /**
   * On iOS the sub-paths are joined to the root one by one, and `path.join` trims each of
   * them, so whitespace at the end of the path is lost: for `a /` the joined directory
   * is `/a `, but the plan creates only `/a`.
   */
  lemma MobileTrimsLastPart()
    ensures Join(["/", "a /"]) == "/a "
    ensures CreateDirectoryPlan({}, "/", "a /", true) == ["/a"]
    ensures "/a " !in Made(CreateDirectoryPlan({}, "/", "a /", true))
  {
    TrailingSpaceNotMade();
    TrailingSpaceJoin();
    TrailingSpaceParts();
    MobileWithOneComponent("a /", "/a ", "a ", "/a");
  }

  /**
   * On iOS, with nothing existing yet, a `dir` whose joined path `p` has the single
   * component `c` gets exactly one `mkdir`, of `join("/", c)`.
   */
  lemma MobileWithOneComponent(dir: string, p: string, c: string, t: string)
    requires Join(["/", dir]) == p && IsNormalized(p)
    requires Components(p) == [c] && Join(["/", c]) == t
    ensures CreateDirectoryPlan({}, "/", dir, true) == [t]
  {
    MobilePlan({}, "/", dir);
    NormalizedIsFixpoint(p);
    SubPathsOfOne(p, c);
    RootedOfOne("/", c);
    MissingOfOneNew(t);
  }

  lemma SubPathsOfOne(p: string, c: string)
    requires Components(p) == [c]
    ensures SubPaths(p) == [c]
  {
    assert [c][..1] == [c];
  }

  lemma RootedOfOne(root: string, c: string)
    ensures Rooted(root, [c]) == [Join([root, c])]
  {
    assert Rooted(root, [c])[0] == Join([root, c]);
  }

  lemma MissingOfOneNew(t: string)
    ensures Missing({}, [t]) == [t]
  {
    assert [t][..0] == [];
  }

  /** Joining the vault root "/" with `a /`: the trailing separator goes, the space stays. */
  lemma TrailingSpaceJoin()
    ensures Join(["/", "a /"]) == "/a "
  {
    TrailingSpaceJoinable();
    JoinUnderSlashRootDropsSlash("a ");
  }

  lemma TrailingSpaceJoinable()
    ensures Trim("a /") == "a /" && IsNormalized("/a ")
    ensures "a " + ['/'] == "a /" && ['/'] + "a " == "/a "
  {
    TrimOfTrimmed("a /");
  }

  /**
   * Joining the vault root "/" with `q/`, for a trimmed `q/` whose `/q` is normalized,
   * gives `/q`: the trailing separator is dropped.
   */
  lemma JoinUnderSlashRootDropsSlash(q: string)
    requires q != [] && q[0] != '/'
    requires Trim(q + ['/']) == q + ['/']
    requires IsNormalized(['/'] + q)
    ensures Join(["/", q + ['/']]) == ['/'] + q
  {
    SlashRootJoined(q + ['/']);
    SlashesAround(q);
    NormalizeDropsTrailing(['/'] + q);
  }

  lemma SlashesAround(q: string)
    ensures ['/', '/'] + (q + ['/']) == ['/'] + ((['/'] + q) + ['/'])
  {
  }

  /** `path.join("/", u)` for a trimmed `u` normalizes `//u`. */
  lemma SlashRootJoined(u: string)
    requires Trim(u) == u
    ensures Join(["/", u]) == NormalizePath(['/', '/'] + u)
  {
    TrimOfTrimmed("/");
    assert TrimAll(["/", u]) == ["/", u];
    assert ["/", u][1..] == [u];
    assert JoinWith(["/", u], '/') == ['/', '/'] + u;
  }

  /** Normalizing `/w/` for a normalized `w` that starts with '/' gives `w`. */
  lemma NormalizeDropsTrailing(w: string)
    requires IsNormalized(w) && w != [] && w[0] == '/'
    ensures NormalizePath(['/'] + (w + ['/'])) == w
  {
    var v := w + ['/'];
    var s := ['/'] + v;
    SnocSlashClean(w);
    assert '\\' !in s by {
      forall i | 0 <= i < |s| ensures s[i] != '\\' {
        if i > 0 { assert s[i] == v[i - 1]; }
      }
    }
    assert ToSlashes(s) == s;
    CollapseCons('/', v);
    CollapseKeepsClean(v);
    assert CollapseSlashes(s) == v;
    assert v[..|v| - 1] == w;
  }

  /** A normalized path with one more '/' at its end has no backslash and no doubled '/'. */
  lemma SnocSlashClean(w: string)
    requires IsNormalized(w) && w != []
    ensures '\\' !in w + ['/'] && NoDoubleSlash(w + ['/'])
  {
    var v := w + ['/'];
    forall i | 0 <= i < |v| - 1 ensures !(v[i] == '/' && v[i + 1] == '/') {
      assert v[i] == w[i];
      if i < |v| - 2 { assert v[i + 1] == w[i + 1]; }
    }
  }

  /** Joining the vault root "/" with `c`, whose trim `a` is such that `/a` is normalized, gives `/a`. */
  lemma JoinTrimmedUnderSlashRoot(c: string, a: string)
    requires Trim(c) == a && Trim(a) == a && a != [] && a[0] != '/'
    requires IsNormalized(['/'] + a)
    ensures Join(["/", c]) == ['/'] + a
  {
    TrimOfTrimmed("/");
    assert TrimAll(["/", c]) == TrimAll(["/", a]);
    JoinUnderSlashRoot(a);
  }

  /** `/a ` is normalized, its only component is `a `, and joining that to "/" gives `/a`. */
  lemma TrailingSpaceParts()
    ensures IsNormalized("/a ") && Components("/a ") == ["a "] && Join(["/", "a "]) == "/a"
    ensures "/a " != "/a"
  {
    TrailingSpaceTrim();
    assert ['/'] + "a " == "/a ";
    ComponentsOfOne("a ");
    TrailingSpaceRootJoin();
  }

  lemma TrailingSpaceTrim()
    ensures Trim("a ") == "a" && '/' !in "a "
  {
    assert TrimStart("a ") == "a ";
    assert "a "[..1] == "a";
    TrimOfTrimmed("a");
  }

  lemma TrailingSpaceRootJoin()
    ensures Join(["/", "a "]) == "/a"
  {
    TrailingSpaceTrim();
    TrimOfTrimmed("a");
    assert ['/'] + "a" == "/a";
    JoinTrimmedUnderSlashRoot("a ", "a");
  }

  /** The components of `/c` for a non-blank part `c` free of '/': just `c`. */
  lemma ComponentsOfOne(c: string)
    requires '/' !in c && Trim(c) != []
    ensures Components(['/'] + c) == [c]
  {
    SplitPrefix([], c, '/');
    assert [] + ['/'] + c == ['/'] + c;
    assert Split(['/'] + c, '/') == [[], c];
    assert Trim([]) == [];
    NonBlankKeep(c, []);
    NonBlankDrop([], [c]);
    assert [[], c] == [[]] + [c] && [c] == [c] + [];
  }

  lemma TakeAll<T>(s: seq<T>)
    ensures s[..|s|] == s
  {
  }

  /** Filtering blank parts, one part at a time. */
  lemma NonBlankCons(x: string, rest: seq<string>)
    ensures NonBlank([x] + rest) == (if Trim(x) != [] then [x] else []) + NonBlank(rest)
  {
    assert ([x] + rest)[1..] == rest;
  }

  /** A part that is not blank is kept. */
  lemma NonBlankKeep(x: string, rest: seq<string>)
    requires Trim(x) != []
    ensures NonBlank([x] + rest) == [x] + NonBlank(rest)
  {
    assert ([x] + rest)[1..] == rest;
  }

  /** A blank part is dropped. */
  lemma NonBlankDrop(x: string, rest: seq<string>)
    requires Trim(x) == []
    ensures NonBlank([x] + rest) == NonBlank(rest)
  {
    assert ([x] + rest)[1..] == rest;
  }

  lemma RootedOfTwo(root: string, a: string, b: string)
    ensures Rooted(root, [a, b]) == [Join([root, a]), Join([root, b])]
  {
    var r := Rooted(root, [a, b]);
    PairOf(r, Join([root, a]), Join([root, b]));
  }

  lemma PairOf(r: seq<string>, x: string, y: string)
    requires |r| == 2 && r[0] == x && r[1] == y
    ensures r == [x, y]
  {
  }

  lemma PrefixesOfTwo(a: string, b: string)
    ensures Prefixes([a, b]) == [a, a + "/" + b]
  {
    var comps := [a, b];
    assert comps[..1] == [a] && comps[..2] == comps && comps[1..] == [b];
    assert JoinWith(comps, '/') == a + ['/'] + JoinWith([b], '/');
  }

  lemma MissingOfTwoNew(a: string, b: string)
    requires |a| < |b|
    ensures Missing({}, [a, b]) == [a, b]
  {
    var t := [a, b];
    assert t[..1] == [a] && t[..1][..0] == [];
    MadeSnoc([], a);
  }

  /**
   * The vault's directories are closed under ancestors: with every existing path, each
   * of its rooted sub-paths exists too.
   */
  ghost predicate AncestorClosed(existing: set<string>, root: string)
  {
    forall p, k :: p in existing && 0 <= k < |SubPaths(p)| ==> Join([root, SubPaths(p)[k]]) in existing
  }

  /**
   * Creating a directory that exists, in an ancestor-closed vault, creates nothing: on
   * desktop the code falls through to the loop, which finds every sub-path present.
   */
  lemma ExistingDirectoryCreatesNothing(existing: set<string>, root: string, dir: string, isIosApp: bool)
    requires AncestorClosed(existing, root)
    requires Join([root, dir]) in existing
    ensures CreateDirectoryPlan(existing, root, dir, isIosApp) == []
  {
    var directoryPath := Join([root, dir]);
    NormalizedIsFixpoint(directoryPath);
    var targets := RootedSubPaths(root, directoryPath);
    forall x | x in targets ensures x in existing {
      var k :| 0 <= k < |targets| && targets[k] == x;
      assert x == Join([root, SubPaths(directoryPath)[k]]);
    }
    MissingWhenAllExist(existing, targets);
  }

  /** The host calls a plan turns into. */
  function MkdirEffects(paths: seq<string>): (r: seq<Effect>)
    ensures |r| == |paths| && forall i :: 0 <= i < |r| ==> r[i] == MakeDir(paths[i])
  {
    seq(|paths|, i requires 0 <= i < |paths| => MakeDir(paths[i]))
  }

  /** The set of paths a list holds. */
  function Elements(paths: seq<string>): (r: set<string>)
    ensures forall x :: x in r <==> x in paths
  {
    set x | x in paths
  }

  /** One more `mkdir` after a logged plan: the log grows by that call. */
  lemma MkdirEffectsSnoc(log0: seq<Effect>, paths: seq<string>, x: string)
    ensures log0 + MkdirEffects(paths) + [MakeDir(x)] == log0 + MkdirEffects(paths + [x])
  {
    assert MkdirEffects(paths + [x]) == MkdirEffects(paths) + [MakeDir(x)];
  }

  /**
   * The loop of util.ts:91-96: each rooted sub-path that does not exist is created,
   * and nothing else.
   */
  method CreateEachSubPath(host: Host, root: string, subPaths: seq<string>)
    requires host.Valid()
    modifies host
    ensures host.Valid()
    ensures host.log == old(host.log) + MkdirEffects(Missing(old(host.dirs), Rooted(root, subPaths)))
    ensures host.dirs == old(host.dirs) + Made(Missing(old(host.dirs), Rooted(root, subPaths)))
  {
    ghost var targets := Rooted(root, subPaths);
    ghost var existing := host.dirs;
    ghost var log0 := host.log;
    for i := 0 to |subPaths|
      invariant host.Valid()
      invariant host.log == log0 + MkdirEffects(Missing(existing, targets[..i]))
      invariant host.dirs == existing + Made(Missing(existing, targets[..i]))
    {
      var subPath := Join([root, subPaths[i]]);
      assert subPath == targets[i];
      MissingStep(existing, targets, i);
      ghost var m := Missing(existing, targets[..i]);
      ghost var m' := Missing(existing, targets[..i + 1]);
      var present := host.Exists(subPath);
      assert present <==> subPath in existing || subPath in Made(m);
      if !present {
        assert m' == m + [subPath];
        host.Mkdir(subPath);
        MkdirEffectsSnoc(log0, m, subPath);
        MadeSnoc(m, subPath);
      } else {
        assert m' == m;
      }
    }
    assert targets[..|subPaths|] == targets;
  }

  /**
   * `createDirectory(vault, dir)`: the `mkdir` calls are exactly those of the plan, and
   * the planned paths exist afterwards.
   */
  method CreateDirectory(host: Host, dir: string, isIosApp: bool)
    requires host.Valid()
    modifies host
    ensures host.Valid()
    ensures host.log == old(host.log) + MkdirEffects(CreateDirectoryPlan(old(host.dirs), host.rootPath, dir, isIosApp))
    ensures host.dirs == old(host.dirs) + Made(CreateDirectoryPlan(old(host.dirs), host.rootPath, dir, isIosApp))
  {
    var root := host.rootPath;
    var directoryPath := Join([root, dir]);
    var directoryExists := host.Exists(directoryPath);
    if !isIosApp {
      if !directoryExists {
        DesktopPlan(host.dirs, root, dir);
        host.Mkdir(NormalizePath(directoryPath));
        return;
      }
    }
    FallThroughPlan(host.dirs, root, dir, isIosApp);
    var subPaths := SubPaths(NormalizePath(directoryPath));
    CreateEachSubPath(host, root, subPaths);
  }

  /** The desktop plan for a missing directory: one recursive `mkdir` of its path. */
  lemma DesktopPlan(existing: set<string>, root: string, dir: string)
    requires Join([root, dir]) !in existing
    ensures var p := NormalizePath(Join([root, dir]));
            var plan := CreateDirectoryPlan(existing, root, dir, false);
            MkdirEffects(plan) == [MakeDir(p)] && Made(plan) == Ancestors(p)
  {
    var j := Join([root, dir]);
    DesktopCreatesDirectoryOnce(existing, root, dir);
    NormalizedIsFixpoint(j);
    assert MkdirEffects([j]) == [MakeDir(j)];
    MadeSnoc([], j);
  }

  /** On iOS, or when the directory exists, the plan is that of the sub-path loop. */
  lemma FallThroughPlan(existing: set<string>, root: string, dir: string, isIosApp: bool)
    requires isIosApp || Join([root, dir]) in existing
    ensures CreateDirectoryPlan(existing, root, dir, isIosApp)
            == Missing(existing, Rooted(root, SubPaths(NormalizePath(Join([root, dir])))))
  {
  }
}
