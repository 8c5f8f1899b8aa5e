// The path-traversal guard build.py puts in front of extracting the NDK
// archive: every member path, joined to the extraction directory and made
// absolute, must lie within that directory.
//
// Paths are POSIX strings; an absolute normalized path is modelled by its
// sequence of components ("/a/b" is ["a", "b"], "/" is []). The working
// directory that os.path.abspath consults is a parameter.

module TarGuard {
  import opened Common
  import BuildConfig

  // ---- Paths ----

  /** A component of a normalized path: non-empty, not "." or "..", no separator. */
  predicate Proper(c: string) {
    c != "" && c != "." && c != ".." && '/' !in c
  }

  predicate AllProper(cs: seq<string>) {
    forall i :: 0 <= i < |cs| ==> Proper(cs[i])
  }

  /** One component of os.path.normpath on an absolute path: "" and "." vanish, ".." drops the last component (none above the root). */
  function Step(stack: seq<string>, part: string): seq<string> {
    if part == "" || part == "." then stack
    else if part == ".." then (if stack == [] then [] else stack[..|stack| - 1])
    else stack + [part]
  }

  function Normalize(stack: seq<string>, parts: seq<string>): (r: seq<string>)
    ensures AllProper(stack) && (forall i :: 0 <= i < |parts| ==> '/' !in parts[i]) ==> AllProper(r)
    decreases parts
  {
    if parts == [] then stack else Normalize(Step(stack, parts[0]), parts[1..])
  }

  /** The components of os.path.abspath(p) with cwd as the working directory. */
  function AbsComponents(cwd: seq<string>, p: string): (r: seq<string>)
    requires AllProper(cwd)
    ensures AllProper(r)
  {
    if p != [] && p[0] == '/' then Normalize([], BuildConfig.Split(p, '/'))
    else Normalize(cwd, BuildConfig.Split(p, '/'))
  }

  /** "/c0/c1/…" for non-empty components. */
  function Joined(cs: seq<string>): string {
    if cs == [] then "" else "/" + cs[0] + Joined(cs[1..])
  }

  /** The text of an absolute normalized path. */
  function Render(cs: seq<string>): string {
    if cs == [] then "/" else Joined(cs)
  }

  function AbsPath(cwd: seq<string>, p: string): (r: string)
    requires AllProper(cwd)
    ensures |r| > 0 && r[0] == '/'
  {
    Render(AbsComponents(cwd, p))
  }

  /** os.path.join(path, name): an absolute name replaces the path. */
  function Join(path: string, name: string): (r: string)
    ensures name != [] && name[0] == '/' ==> r == name
    ensures (name == [] || name[0] != '/') ==> path <= r && |name| <= |r| && r[|r| - |name|..] == name
  {
    if name != [] && name[0] == '/' then name
    else if path == [] || path[|path| - 1] == '/' then path + name
    else path + "/" + name
  }

  /** The longest common prefix of two sequences (os.path.commonprefix on two strings). */
  function CommonPrefix<T(==)>(a: seq<T>, b: seq<T>): (r: seq<T>)
    ensures r <= a && r <= b
  {
    if a == [] || b == [] || a[0] != b[0] then [] else [a[0]] + CommonPrefix(a[1..], b[1..])
  }

  /** The common prefix is the whole of a exactly when a is a prefix of b. */
  lemma {:induction false} CommonPrefixWhole<T>(a: seq<T>, b: seq<T>)
    ensures CommonPrefix(a, b) == a <==> a <= b
  {
    if a != [] && b != [] && a[0] == b[0] {
      CommonPrefixWhole(a[1..], b[1..]);
      assert [a[0]] + a[1..] == a;
      if a[1..] <= b[1..] {
        assert a <= b;
      }
      if a <= b {
        assert a[1..] <= b[1..];
      }
    }
  }

  // ---- The guard as written ----

  /** is_within_directory: the absolute directory is a character prefix of the absolute target. */
  predicate IsWithinDirectory(cwd: seq<string>, directory: string, target: string): (r: bool)
    requires AllProper(cwd)
    ensures r <==> AbsPath(cwd, directory) <= AbsPath(cwd, target)
  {
    CommonPrefixWhole(AbsPath(cwd, directory), AbsPath(cwd, target));
    CommonPrefix(AbsPath(cwd, directory), AbsPath(cwd, target)) == AbsPath(cwd, directory)
  }

  // ---- The guard as intended ----

  /**
   * The check component by component (what os.path.commonpath gives): the
   * directory's components are the leading components of the target's.
   */
  predicate IsWithinDirectoryFixed(cwd: seq<string>, directory: string, target: string)
    requires AllProper(cwd)
  {
    CommonPrefix(AbsComponents(cwd, directory), AbsComponents(cwd, target)) == AbsComponents(cwd, directory)
  }

  /** The intended meaning: the target is the directory itself or lies below it. */
  lemma FixedIsDescendant(cwd: seq<string>, directory: string, target: string)
    requires AllProper(cwd)
    ensures IsWithinDirectoryFixed(cwd, directory, target) <==>
      exists rest: seq<string> :: AbsComponents(cwd, target) == AbsComponents(cwd, directory) + rest
  {
    var d, t := AbsComponents(cwd, directory), AbsComponents(cwd, target);
    CommonPrefixWhole(d, t);
    if d <= t {
      assert t == d + t[|d|..];
    }
  }

  lemma {:induction false} JoinedAppend(a: seq<string>, b: seq<string>)
    ensures Joined(a + b) == Joined(a) + Joined(b)
  {
    if a != [] {
      assert (a + b)[0] == a[0] && (a + b)[1..] == a[1..] + b;
      JoinedAppend(a[1..], b);
    } else {
      assert a + b == b;
    }
  }

  /** The intended check is stricter: whatever it accepts, the check as written accepts too. */
  lemma FixedImpliesWithin(cwd: seq<string>, directory: string, target: string)
    requires AllProper(cwd)
    ensures IsWithinDirectoryFixed(cwd, directory, target) ==> IsWithinDirectory(cwd, directory, target)
  {
    var d, t := AbsComponents(cwd, directory), AbsComponents(cwd, target);
    if IsWithinDirectoryFixed(cwd, directory, target) {
      CommonPrefixWhole(d, t);
      JoinedAppend(d, t[|d|..]);
      assert t == d + t[|d|..];
      if d == [] && t != [] {
        assert Render(t)[0] == '/';
      }
    }
  }

  lemma JoinedSnoc(cs: seq<string>, c: string)
    ensures Joined(cs + [c]) == Joined(cs) + "/" + c
  {
    JoinedAppend(cs, [c]);
    assert Joined([c]) == "/" + c + Joined([]);
  }

  /** Splitting a rendered path on '/' gives back its components, after the leading piece. */
  lemma {:induction false} SplitJoinedThen(pre: string, cs: seq<string>, t: string)
    requires '/' !in pre && forall i :: 0 <= i < |cs| ==> '/' !in cs[i]
    ensures BuildConfig.Split(pre + Joined(cs) + "/" + t, '/') == [pre] + cs + BuildConfig.Split(t, '/')
    decreases cs
  {
    if cs == [] {
      BuildConfig.SplitAt(pre, '/', t);
      assert pre + Joined(cs) + "/" + t == pre + ['/'] + t;
    } else {
      var rest := cs[0] + Joined(cs[1..]) + "/" + t;
      assert Joined(cs) == "/" + cs[0] + Joined(cs[1..]);
      assert pre + Joined(cs) + "/" + t == pre + ['/'] + rest;
      BuildConfig.SplitAt(pre, '/', rest);
      SplitJoinedThen(cs[0], cs[1..], t);
      assert [cs[0]] + cs[1..] == cs;
    }
  }

  lemma {:induction false} NormalizeAppend(stack: seq<string>, a: seq<string>, b: seq<string>)
    ensures Normalize(stack, a + b) == Normalize(Normalize(stack, a), b)
    decreases a
  {
    if a == [] {
      assert a + b == b;
    } else {
      assert (a + b)[0] == a[0] && (a + b)[1..] == a[1..] + b;
      NormalizeAppend(Step(stack, a[0]), a[1..], b);
    }
  }

  lemma {:induction false} NormalizeProperParts(stack: seq<string>, cs: seq<string>)
    requires AllProper(cs)
    ensures Normalize(stack, cs) == stack + cs
    decreases cs
  {
    if cs != [] {
      NormalizeProperParts(stack + [cs[0]], cs[1..]);
      assert stack + [cs[0]] + cs[1..] == stack + cs;
    }
  }

  /** os.path.abspath leaves a normalized absolute path as it is. */
  lemma RenderRoundTrip(cwd: seq<string>, cs: seq<string>)
    requires AllProper(cwd) && AllProper(cs)
    ensures AbsComponents(cwd, Render(cs)) == cs
  {
    if cs == [] {
      BuildConfig.SplitAt("", '/', "");
      assert Render(cs) == "" + ['/'] + "";
      assert BuildConfig.Split("", '/') == [""];
      assert Normalize([], ["", ""]) == [];
    } else {
      RenderSplit(cs);
      NormalizeProperParts([], cs);
      assert ([""] + cs)[1..] == cs;
      assert Normalize([], [""] + cs) == Normalize([], cs);
    }
  }

  /** A rendered path of at least one component starts with '/' and splits into "" and its components. */
  lemma RenderSplit(cs: seq<string>)
    requires cs != [] && AllProper(cs)
    ensures Render(cs)[0] == '/'
    ensures BuildConfig.Split(Render(cs), '/') == [""] + cs
  {
    var n := |cs| - 1;
    assert cs[..n] + [cs[n]] == cs;
    JoinedSnoc(cs[..n], cs[n]);
    SplitJoinedThen("", cs[..n], cs[n]);
    BuildConfig.SplitAbsent(cs[n], '/');
    assert "" + Joined(cs[..n]) + "/" + cs[n] == Render(cs);
  }

  /** The member name of the counterexample: up one level, into the sibling, then a file. */
  function SiblingName(sibling: string, leaf: string): string {
    ".." + "/" + sibling + "/" + leaf
  }

  lemma SiblingNameParts(sibling: string, leaf: string)
    requires '/' !in sibling && '/' !in leaf
    ensures BuildConfig.Split(SiblingName(sibling, leaf), '/') == ["..", sibling, leaf]
  {
    BuildConfig.SplitAt("..", '/', sibling + "/" + leaf);
    assert SiblingName(sibling, leaf) == ".." + ['/'] + (sibling + "/" + leaf);
    BuildConfig.SplitAt(sibling, '/', leaf);
    assert sibling + "/" + leaf == sibling + ['/'] + leaf;
    BuildConfig.SplitAbsent(leaf, '/');
  }

  lemma SiblingMemberComponents(cwd: seq<string>, dir: seq<string>, sibling: string, leaf: string)
    requires AllProper(cwd) && AllProper(dir) && dir != [] && Proper(sibling) && Proper(leaf)
    ensures AbsComponents(cwd, Join(Render(dir), SiblingName(sibling, leaf))) == dir[..|dir| - 1] + [sibling, leaf]
  {
    var n := |dir| - 1;
    SiblingMemberSplit(dir, sibling, leaf);
    NormalizeAppend([], [""] + dir, [".."] + [sibling, leaf]);
    NormalizeProperParts([], dir);
    assert ([""] + dir)[1..] == dir;
    assert Normalize([], [""] + dir) == dir;
    NormalizeProperParts(dir[..n], [sibling, leaf]);
  }

  /** The sibling member, joined to the rendered directory, is absolute and splits into the directory, "..", the sibling and the leaf. */
  lemma SiblingMemberSplit(dir: seq<string>, sibling: string, leaf: string)
    requires AllProper(dir) && dir != [] && Proper(sibling) && Proper(leaf)
    ensures var member := Join(Render(dir), SiblingName(sibling, leaf));
      member[0] == '/' && BuildConfig.Split(member, '/') == ([""] + dir) + ([".."] + [sibling, leaf])
  {
    var n := |dir| - 1;
    var name := SiblingName(sibling, leaf);
    var member := Join(Render(dir), name);
    assert dir[..n] + [dir[n]] == dir;
    JoinedSnoc(dir[..n], dir[n]);
    assert Render(dir)[|Render(dir)| - 1] == dir[n][|dir[n]| - 1];
    assert member == "" + Joined(dir) + "/" + name;
    SplitJoinedThen("", dir, name);
    SiblingNameParts(sibling, leaf);
  }

  lemma SiblingRenderPrefix(dir: seq<string>, suffix: string, leaf: string)
    requires dir != []
    ensures Render(dir) <= Render(dir[..|dir| - 1] + [dir[|dir| - 1] + suffix, leaf])
  {
    var n := |dir| - 1;
    var t := dir[..n] + [dir[n] + suffix, leaf];
    assert dir[..n] + [dir[n]] == dir;
    JoinedSnoc(dir[..n], dir[n]);
    assert t == dir[..n] + [dir[n] + suffix] + [leaf];
    JoinedSnoc(dir[..n] + [dir[n] + suffix], leaf);
    JoinedSnoc(dir[..n], dir[n] + suffix);
    assert Render(t) == (Joined(dir[..n]) + "/" + dir[n]) + (suffix + "/" + leaf);
  }

  /**
   * The check as written lets a member escape into a sibling directory whose
   * name extends the directory's last component: for the directory
   * "/sdk/ndk", the member "../ndk-evil/x" resolves to "/sdk/ndk-evil/x",
   * which starts with the characters "/sdk/ndk" but is not inside it.
   */
  lemma SiblingEscapes(cwd: seq<string>, dir: seq<string>, suffix: string, leaf: string)
    requires AllProper(cwd) && AllProper(dir) && dir != []
    requires suffix != [] && '/' !in suffix && Proper(leaf)
    ensures var member := Join(Render(dir), SiblingName(dir[|dir| - 1] + suffix, leaf));
      AbsComponents(cwd, member) == dir[..|dir| - 1] + [dir[|dir| - 1] + suffix, leaf] &&
      IsWithinDirectory(cwd, Render(dir), member) &&
      !IsWithinDirectoryFixed(cwd, Render(dir), member)
  {
    var n := |dir| - 1;
    var sibling := dir[n] + suffix;
    var member := Join(Render(dir), SiblingName(sibling, leaf));
    assert Proper(sibling) by {
      assert sibling[0] == dir[n][0];
      assert |sibling| > |dir[n]|;
      assert '/' !in sibling by {
        forall i | 0 <= i < |sibling|
          ensures sibling[i] != '/'
        {
          if i < |dir[n]| {
            assert sibling[i] == dir[n][i];
          } else {
            assert sibling[i] == suffix[i - |dir[n]|];
          }
        }
      }
    }
    SiblingMemberComponents(cwd, dir, sibling, leaf);
    var t := dir[..n] + [sibling, leaf];
    RenderRoundTrip(cwd, dir);
    SiblingRenderPrefix(dir, suffix, leaf);
    CommonPrefixWhole(dir, t);
    assert |t[n]| != |dir[n]|;
  }

  // ---- safe_extract ----

  const TraversalError := "Attempted Path Traversal in Tar File"

  /**
   * The loop of safe_extract: every member is checked before anything is
   * extracted; the first one that fails aborts with the traversal error.
   * On success the result is the members to extract, all of them.
   */
  method CheckMembers(members: seq<string>, ok: string -> bool) returns (r: Result<seq<string>, string>)
    ensures r.Ok? <==> AllOf(members, ok)
    ensures r.Ok? ==> r.value == members
    ensures r.Err? ==> r.error == TraversalError
  {
    for i := 0 to |members|
      invariant AllOf(members[..i], ok)
    {
      AllOfStep(members, i, ok);
      if !ok(members[i]) {
        AllOfPrefix(members, i + 1, ok);
        return Err(TraversalError);
      }
    }
    assert members[..|members|] == members;
    return Ok(members);
  }

  /**
   * safe_extract as written: each member name, joined to the extraction
   * path, goes through is_within_directory (the character-prefix check)
   * before anything is extracted.
   */
  method SafeExtract(cwd: seq<string>, path: string, members: seq<string>) returns (r: Result<seq<string>, string>)
    requires AllProper(cwd)
    ensures r.Ok? <==> AllInside(cwd, path, members)
    ensures r.Ok? ==> r.value == members
    ensures r.Err? ==> r.error == TraversalError
  {
    r := CheckMembers(members, Inside(cwd, path));
  }

  /** safe_extract with the component-wise check in place of is_within_directory. */
  method SafeExtractFixed(cwd: seq<string>, path: string, members: seq<string>) returns (r: Result<seq<string>, string>)
    requires AllProper(cwd)
    ensures r.Ok? <==> AllInsideFixed(cwd, path, members)
    ensures r.Ok? ==> r.value == members
    ensures r.Err? ==> r.error == TraversalError
  {
    r := CheckMembers(members, InsideFixed(cwd, path));
  }

  /** The check safe_extract makes on one member name. */
  function Inside(cwd: seq<string>, path: string): string -> bool
    requires AllProper(cwd)
  {
    member => IsWithinDirectory(cwd, path, Join(path, member))
  }

  /** The corrected check on one member name. */
  function InsideFixed(cwd: seq<string>, path: string): string -> bool
    requires AllProper(cwd)
  {
    member => IsWithinDirectoryFixed(cwd, path, Join(path, member))
  }

  /** Every member, joined to the path, passes is_within_directory. */
  predicate AllInside(cwd: seq<string>, path: string, members: seq<string>)
    requires AllProper(cwd)
  {
    AllOf(members, Inside(cwd, path))
  }

  /** Every member, joined to the path, lies within it component by component. */
  predicate AllInsideFixed(cwd: seq<string>, path: string, members: seq<string>)
    requires AllProper(cwd)
  {
    AllOf(members, InsideFixed(cwd, path))
  }

  /** The check holds for every element, tested from the last one back. */
  predicate AllOf(xs: seq<string>, ok: string -> bool) {
    xs == [] || (AllOf(xs[..|xs| - 1], ok) && ok(xs[|xs| - 1]))
  }

  lemma AllOfStep(xs: seq<string>, i: nat, ok: string -> bool)
    requires i < |xs|
    ensures AllOf(xs[..i + 1], ok) <==> AllOf(xs[..i], ok) && ok(xs[i])
  {
    assert xs[..i + 1][..i] == xs[..i];
  }

  /** A list whose prefix fails the check fails it too. */
  lemma {:induction false} AllOfPrefix(xs: seq<string>, n: nat, ok: string -> bool)
    requires n <= |xs| && !AllOf(xs[..n], ok)
    ensures !AllOf(xs, ok)
    decreases |xs| - n
  {
    if n < |xs| {
      AllOfStep(xs, n, ok);
      AllOfPrefix(xs, n + 1, ok);
    } else {
      assert xs[..n] == xs;
    }
  }

  lemma {:induction false} AllOfIff(xs: seq<string>, ok: string -> bool)
    ensures AllOf(xs, ok) <==> forall i :: 0 <= i < |xs| ==> ok(xs[i])
  {
    if xs != [] {
      var n := |xs| - 1;
      AllOfIff(xs[..n], ok);
      assert forall i :: 0 <= i < n ==> xs[..n][i] == xs[i];
    }
  }

  /** safe_extract accepts exactly when every member, joined to the path, passes is_within_directory. */
  lemma AllInsideIff(cwd: seq<string>, path: string, members: seq<string>)
    requires AllProper(cwd)
    ensures AllInside(cwd, path, members) <==>
      forall i :: 0 <= i < |members| ==> AbsPath(cwd, path) <= AbsPath(cwd, Join(path, members[i]))
  {
    AllOfIff(members, Inside(cwd, path));
    forall i | 0 <= i < |members|
      ensures Inside(cwd, path)(members[i]) <==> AbsPath(cwd, path) <= AbsPath(cwd, Join(path, members[i]))
    {
      var m := members[i];
      assert Inside(cwd, path)(m) == IsWithinDirectory(cwd, path, Join(path, m));
    }
  }

  /** The corrected guard accepts exactly when every member lies at or below the path. */
  lemma AllInsideFixedIff(cwd: seq<string>, path: string, members: seq<string>)
    requires AllProper(cwd)
    ensures AllInsideFixed(cwd, path, members) <==>
      forall i :: 0 <= i < |members| ==> exists rest: seq<string> ::
        AbsComponents(cwd, Join(path, members[i])) == AbsComponents(cwd, path) + rest
  {
    AllOfIff(members, InsideFixed(cwd, path));
    forall i | 0 <= i < |members| {
      FixedIsDescendant(cwd, path, Join(path, members[i]));
    }
  }

  /**
   * At the level of safe_extract: the archive whose one member escapes into
   * the sibling directory passes the check as written, so it is extracted,
   * and fails the corrected check.
   */
  lemma SiblingArchiveExtracted(cwd: seq<string>, dir: seq<string>, suffix: string, leaf: string)
    requires AllProper(cwd) && AllProper(dir) && dir != []
    requires suffix != [] && '/' !in suffix && Proper(leaf)
    ensures var members := [SiblingName(dir[|dir| - 1] + suffix, leaf)];
      AllInside(cwd, Render(dir), members) && !AllInsideFixed(cwd, Render(dir), members)
  {
    var members := [SiblingName(dir[|dir| - 1] + suffix, leaf)];
    SiblingEscapes(cwd, dir, suffix, leaf);
    assert members[..0] == [];
  }
}
