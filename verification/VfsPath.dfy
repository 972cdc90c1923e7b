/**
 Paths as strings and as lists of components: splitting, collapsing of repeated
 slashes, and dropping the components of a mount point.
 */
module VfsPath {

  /** __vfs_get_next_path_part_len: the length of the first component. */
  function PartLen(s: string): (k: nat)
    ensures k <= |s| && (forall i | 0 <= i < k :: s[i] != '/') && (k < |s| ==> s[k] == '/')
  {
    if s == "" || s[0] == '/' then 0 else 1 + PartLen(s[1..])
  }

  method NextPartLen(s: string) returns (k: nat)
    ensures k == PartLen(s)
  {
    k := 0;
    while k < |s|
      invariant k <= |s| && PartLen(s) == k + PartLen(s[k..])
    {
      if s[k] == '/' { return; }
      assert s[k..][1..] == s[k + 1..];
      k := k + 1;
    }
  }

  /** The components of a path, empty ones dropped. */
  function Components(s: string): seq<string>
    decreases |s|
  {
    if s == "" then []
    else if s[0] == '/' then Components(s[1..])
    else [s[..PartLen(s)]] + Components(s[PartLen(s)..])
  }

  predicate IsName(s: string) { s != "" && '/' !in s }

  lemma {:induction false} AllNames(s: string)
    ensures forall i | 0 <= i < |Components(s)| :: IsName(Components(s)[i])
    decreases |s|
  {
    if s != "" {
      if s[0] == '/' { AllNames(s[1..]); } else { AllNames(s[PartLen(s)..]); }
    }
  }

  /** No two slashes side by side. */
  predicate Clean(s: string)
  {
    forall i | 0 <= i < |s| - 1 :: !(s[i] == '/' && s[i + 1] == '/')
  }

  /** A list of components as an absolute path. */
  function Join(cs: seq<string>): string
  {
    if cs == [] then "" else "/" + cs[0] + Join(cs[1..])
  }

  lemma {:induction false} SplitOfJoin(cs: seq<string>)
    requires forall i | 0 <= i < |cs| :: IsName(cs[i])
    ensures Components(Join(cs)) == cs
  {
    if cs != [] {
      var t := Join(cs[1..]);
      assert Join(cs)[1..] == cs[0] + t;
      PartPrefix(cs[0], t);
      assert (cs[0] + t)[..|cs[0]|] == cs[0] && (cs[0] + t)[|cs[0]|..] == t;
      SplitOfJoin(cs[1..]);
    }
  }

  /** An absolute path without empty components is its components, each behind a slash. */
  lemma {:induction false} JoinOfSplit(s: string)
    requires Clean(s) && (s != "" ==> s[0] == '/' && s[|s| - 1] != '/')
    ensures Join(Components(s)) == s
    decreases |s|
  {
    if s != "" {
      var t := s[1..];
      var k := PartLen(t);
      assert s[0] == '/' && s[1] != '/' && t[0] == s[1];
      CleanTail(s, 1);
      CleanTail(t, k);
      JoinOfSplit(t[k..]);
      assert s == "/" + t[..k] + t[k..];
    }
  }

  // ---------------------------------------------------------------- vfs_sanitize_path

  /** Runs of slashes reduced to one. */
  function Collapse(s: string): string
  {
    if |s| < 2 then s
    else if s[0] == '/' && s[1] == '/' then Collapse(s[1..])
    else [s[0]] + Collapse(s[1..])
  }

  lemma {:induction false} CollapseHead(s: string)
    ensures Collapse(s) == "" <==> s == ""
    ensures s != "" ==> Collapse(s)[0] == s[0]
  {
    if |s| >= 2 { CollapseHead(s[1..]); }
  }

  lemma {:induction false} CollapseClean(s: string)
    ensures Clean(Collapse(s))
  {
    if |s| >= 2 {
      CollapseClean(s[1..]);
      CollapseHead(s[1..]);
    }
  }

  lemma {:induction false} CollapsePart(s: string)
    ensures Collapse(s) == s[..PartLen(s)] + Collapse(s[PartLen(s)..])
    decreases |s|
  {
    var k := PartLen(s);
    if k > 0 && |s| < 2 {
      assert s[..k] == s;
    } else if k > 0 {
      var t := s[1..];
      CollapsePart(t);
      assert Collapse(s) == [s[0]] + Collapse(t) && PartLen(t) == k - 1;
      assert s[..k] == [s[0]] + t[..k - 1] && s[k..] == t[k - 1..];
    }
  }

  lemma {:induction false} CollapseRun(s: string, j: nat)
    requires 0 < j <= |s| && (forall i | 0 <= i < j :: s[i] == '/') && (j < |s| ==> s[j] != '/')
    ensures Collapse(s) == "/" + Collapse(s[j..])
  {
    if j > 1 {
      CollapseRun(s[1..], j - 1);
      assert s[1..][j - 1..] == s[j..];
    } else if |s| == 1 {
      assert s == "/";
    }
  }

  lemma {:induction false} PartPrefix(a: string, b: string)
    requires '/' !in a && (b == "" || b[0] == '/')
    ensures PartLen(a + b) == |a|
  {
    if a != "" {
      assert (a + b)[1..] == a[1..] + b;
      PartPrefix(a[1..], b);
    }
  }

  /** Collapsing slashes keeps the components. */
  lemma {:induction false} CollapseComponents(s: string)
    ensures Components(Collapse(s)) == Components(s)
    decreases |s|
  {
    if |s| >= 2 {
      if s[0] == '/' {
        CollapseComponents(s[1..]);
        if s[1] != '/' { assert ([s[0]] + Collapse(s[1..]))[1..] == Collapse(s[1..]); }
      } else {
        var k := PartLen(s);
        var a, b := s[..k], Collapse(s[k..]);
        CollapsePart(s);
        CollapseHead(s[k..]);
        PartPrefix(a, b);
        assert (a + b)[..k] == a && (a + b)[k..] == b;
        CollapseComponents(s[k..]);
      }
    }
  }

  /** The run of slashes that the path begins with. */
  method SlashRun(s: string) returns (j: nat)
    ensures j <= |s| && (forall i | 0 <= i < j :: s[i] == '/') && (j < |s| ==> s[j] != '/')
  {
    j := 0;
    while j < |s| && s[j] == '/'
      invariant j <= |s| && forall i | 0 <= i < j :: s[i] == '/'
    {
      j := j + 1;
    }
  }

  /** One round of the copy: a slash for a run of them, then a component. */
  method CopyPart(rest0: string) returns (copied: string, rest: string)
    requires rest0 != ""
    ensures Collapse(rest0) == copied + Collapse(rest) && |rest| < |rest0|
  {
    var j := SlashRun(rest0);
    var slash := if j > 0 then "/" else "";
    var part := rest0[j..];
    assert Collapse(rest0) == slash + Collapse(part) by {
      if j > 0 { CollapseRun(rest0, j); }
    }
    var k := NextPartLen(part);
    CollapsePart(part);
    copied, rest := slash + part[..k], part[k..];
  }

  /** vfs_sanitize_path; `rest` is what the code points at with its index. */
  method Sanitize(s: string) returns (out: string)
    ensures out == Collapse(s)
  {
    out := "";
    var rest := s;
    while rest != ""
      invariant out + Collapse(rest) == Collapse(s)
      decreases |rest|
    {
      var copied;
      copied, rest := CopyPart(rest);
      out := out + copied;
    }
  }

  // ---------------------------------------------------------------- components of clean paths

  lemma CleanTail(s: string, k: nat)
    requires Clean(s) && k <= |s|
    ensures Clean(s[k..])
  {
    forall i | 0 <= i < |s[k..]| - 1
      ensures !(s[k..][i] == '/' && s[k..][i + 1] == '/')
    {
      assert s[k..][i] == s[k + i] && s[k..][i + 1] == s[k + i + 1];
    }
  }

  /** What is left after an optional slash and one component. */
  function AfterPart(s: string): (r: string)
  {
    var t := if s != "" && s[0] == '/' then s[1..] else s;
    t[PartLen(t)..]
  }

  /** In a clean path one step drops one component, if there is one. */
  lemma DropPart(s: string)
    requires Clean(s)
    ensures Clean(AfterPart(s)) && (AfterPart(s) != "" ==> AfterPart(s)[0] == '/')
    ensures Components(s) != [] ==> Components(AfterPart(s)) == Components(s)[1..]
    ensures Components(s) == [] ==> AfterPart(s) == ""
  {
    var t := if s != "" && s[0] == '/' then s[1..] else s;
    if s != "" && s[0] == '/' { CleanTail(s, 1); }
    CleanTail(t, PartLen(t));
    assert Components(s) == Components(t);
    if t != "" {
      assert t[0] != '/';
      assert Components(t) == [t[..PartLen(t)]] + Components(t[PartLen(t)..]);
    }
  }

  /** One round of __vfs_get_root_path: an optional slash and a component. */
  method SkipPart(s: string) returns (rest: string)
    requires Clean(s)
    ensures rest == AfterPart(s) && |rest| <= |s| && rest == s[|s| - |rest|..]
  {
    rest := s;
    if rest != "" && rest[0] == '/' { rest := rest[1..]; }
    var k := NextPartLen(rest);
    rest := rest[k..];
  }

  /** __vfs_get_root_path, for a mount point `depth` components deep. */
  method RootPath(path: string, depth: nat) returns (rest: string)
    requires Clean(path) && depth <= |Components(path)|
    ensures Components(rest) == Components(path)[depth..]
    ensures if depth == 0 then rest == path else rest != "" && rest[0] == '/'
    ensures rest == "/" || (|rest| <= |path| && rest == path[|path| - |rest|..])
  {
    rest := path;
    for i := 0 to depth
      invariant Clean(rest) && Components(rest) == Components(path)[i..]
      invariant if i == 0 then rest == path else rest == "" || rest[0] == '/'
      invariant |rest| <= |path| && rest == path[|path| - |rest|..]
    {
      DropPart(rest);
      rest := SkipPart(rest);
    }
    if depth > 0 && rest == "" { rest := "/"; }
  }
}
