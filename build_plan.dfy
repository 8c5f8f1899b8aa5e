/**
 * The decision logic of build.py's `binary` and `clean` actions: which
 * targets are built, the Rust architecture table, the generated flags
 * header, the aggregated ndk-build flag string and the ordered list of
 * stages build_binary goes through. Every external tool launch (cargo,
 * cxxbridge, ndk-build, the ELF cleaner, gradle) appears only as a stage
 * value; the launches themselves are outside the model.
 */
module BuildPlan {
  import opened Common
  import BuildConfig
  import TarGuard

  /** The native targets build.py knows, each named on the command line by Name. */
  datatype Target = Magisk | MagiskInit | MagiskBoot | MagiskPolicy | Busybox | Resetprop | Test

  function Name(t: Target): string
  {
    match t
    case Magisk => "magisk"
    case MagiskInit => "magiskinit"
    case MagiskBoot => "magiskboot"
    case MagiskPolicy => "magiskpolicy"
    case Busybox => "busybox"
    case Resetprop => "resetprop"
    case Test => "test"
  }

  /** Distinct targets have distinct names, so a name selects at most one target. */
  lemma NameInjective(t: Target, u: Target)
    ensures Name(t) == Name(u) <==> t == u
  {
  }

  const DefaultTargets: seq<Target> := [Magisk, MagiskInit, MagiskBoot, MagiskPolicy, Busybox]
  const SupportTargets: seq<Target> := DefaultTargets + [Resetprop, Test]
  const RustTargets: seq<Target> := [Magisk, MagiskInit, MagiskBoot, MagiskPolicy]

  const Archs: seq<string> := ["armeabi-v7a", "x86", "arm64-v8a", "x86_64"]
  const Triples: seq<string> :=
    ["armv7a-linux-androideabi", "i686-linux-android", "aarch64-linux-android", "x86_64-linux-android"]
  /** The Rust crates whose C++ bindings cxxbridge generates. */
  const BindingModules: seq<string> := ["base", "boot", "core", "init", "sepolicy"]
  const NeonTriple: string := "thumbv7neon-linux-androideabi"

  function AsSet(s: seq<Target>): set<Target> { set t | t in s }

  /*
   * Target selection
   */

  /**
   * build_binary's target resolution: the requested names that are
   * supported targets, or the default targets when nothing is requested.
   * None is the early return: a request that names no supported target
   * builds nothing at all.
   */
  function ResolveTargets(request: seq<string>): (r: Option<set<Target>>)
    ensures request == [] ==> r == Some(AsSet(DefaultTargets))
    ensures request != [] ==> (r.None? <==> forall t :: t in SupportTargets ==> Name(t) !in request)
    ensures request != [] && r.Some? ==> forall t :: t in r.value <==> t in SupportTargets && Name(t) in request
    ensures r.Some? ==> r.value != {} && r.value <= AsSet(SupportTargets)
  {
    if request != [] then
      var picked := set t | t in SupportTargets && Name(t) in request;
      if picked == {} then
        assert forall t :: t in SupportTargets && Name(t) in request ==> t in picked;
        None
      else
        var t :| t in picked;
        Some(picked)
    else
      assert Magisk in AsSet(DefaultTargets);
      Some(AsSet(DefaultTargets))
  }

  /** What cleanup can remove: native build outputs, or the Java projects. */
  datatype CleanKind = Native | Java

  function KindName(k: CleanKind): string
  {
    match k
    case Native => "native"
    case Java => "java"
  }

  /** cleanup's selection: the requested kinds, or both when nothing is requested. */
  function CleanTargets(request: seq<string>): (r: set<CleanKind>)
    ensures request == [] ==> r == {Native, Java}
    ensures request != [] ==> forall k :: k in r <==> KindName(k) in request
  {
    if request != [] then set k | k in {Native, Java} && KindName(k) in request else {Native, Java}
  }

  datatype CleanStep = RemoveTree(path: string) | GradleClean

  /** The native build output directories cleanup removes. */
  const NativeTrees: seq<string> := ["native/out", "native/libs", "native/obj", "native/rust/target"]

  function CleanSteps(request: seq<string>): seq<CleanStep>
  {
    var kinds := CleanTargets(request);
    (if Native in kinds then seq(|NativeTrees|, i requires 0 <= i < |NativeTrees| => RemoveTree(NativeTrees[i])) else [])
    + (if Java in kinds then [GradleClean] else [])
  }

  /**
   * cleanup removes the four native trees exactly when native is selected,
   * runs the gradle clean exactly when java is, and so does nothing exactly
   * when a request names neither.
   */
  lemma CleanStepsSelection(request: seq<string>)
    ensures var steps := CleanSteps(request);
      (RemoveTree("native/out") in steps <==> request == [] || "native" in request) &&
      (GradleClean in steps <==> request == [] || "java" in request) &&
      (steps == [] <==> request != [] && "native" !in request && "java" !in request)
  {
    var kinds := CleanTargets(request);
    var steps := CleanSteps(request);
    assert KindName(Native) == "native" && KindName(Java) == "java";
    if Native in kinds {
      assert steps[0] == RemoveTree("native/out");
      if Java in kinds {
        assert steps[4] == GradleClean;
      }
    } else {
      assert steps == if Java in kinds then [GradleClean] else [];
    }
  }

  /*
   * Rust build
   */

  /** The Rust target triple for an NDK clang triple: 32-bit ARM builds with NEON. */
  function RustTriple(triple: string): (r: string)
    ensures r == triple <==> !("armv7" <= triple)
  {
    if "armv7" <= triple then assert NeonTriple[0] != triple[0]; NeonTriple else triple
  }

  /** Only the first architecture changes triple for Rust. */
  lemma RustTripleTable(a: nat)
    requires a < |Triples|
    ensures RustTriple(Triples[a]) == if a == 0 then NeonTriple else Triples[a]
  {
    if a != 0 {
      assert Triples[a][0] != 'a' || Triples[a][1] != 'r' || Triples[a][2] != 'm';
    }
  }

  datatype Fault = UnmatchedNdk | MissingStub(path: string)

  /** One step of build_binary, in the order it happens. */
  datatype Stage =
    | InstallCxxbridge
    | GenerateBinding(crate: string, output: string)
    | CargoBuild(arch: string, rustTriple: string, targetCflags: string, crates: set<Target>, release: bool)
    | WriteFlagHeader(text: string)
    | NdkBuild(flags: string)
    | CleanElf
    | DumpBinHeader(stub: string)
    | Fatal(fault: Fault)

  function BindingOutput(j: nat): string
    requires j < 2 * |BindingModules|
  {
    BindingModules[j / 2] + (if j % 2 == 0 then "-rs.cpp" else "-rs.hpp")
  }

  /** One source and one header per binding module, module by module. */
  function BindingStages(): (r: seq<Stage>)
    ensures |r| == 2 * |BindingModules|
    ensures forall j :: 0 <= j < |r| ==> r[j].GenerateBinding?
  {
    seq(2 * |BindingModules|, j requires 0 <= j < 2 * |BindingModules| =>
      GenerateBinding(BindingModules[j / 2], BindingOutput(j)))
  }

  function CompileStage(a: nat, crates: set<Target>, release: bool): Stage
    requires a < |Archs|
  {
    CargoBuild(Archs[a], RustTriple(Triples[a]), "--target=" + Triples[a] + "21", crates, release)
  }

  /** One cargo build per architecture, in the order of Archs, all of the same crates. */
  function CompileStages(crates: set<Target>, release: bool): (r: seq<Stage>)
    ensures |r| == |Archs|
    ensures forall a :: 0 <= a < |r| ==> r[a].CargoBuild? && r[a].arch == Archs[a] && r[a].crates == crates
  {
    seq(|Archs|, a requires 0 <= a < |Archs| => CompileStage(a, crates, release))
  }

  /** The crates of a cargo build: the requested targets that are Rust libraries. */
  function Crates(targets: set<Target>): set<Target> { targets * AsSet(RustTargets) }

  function CargoStages(targets: set<Target>, release: bool): seq<Stage>
  {
    [InstallCxxbridge] + BindingStages() + CompileStages(Crates(targets), release)
  }

  /** run_cargo_build: install cxxbridge, generate the bindings, then build every architecture. */
  method RunCargoBuild(targets: set<Target>, release: bool) returns (stages: seq<Stage>)
    ensures stages == CargoStages(targets, release)
  {
    var crates := targets * AsSet(RustTargets);
    stages := [InstallCxxbridge];
    for k := 0 to |BindingModules|
      invariant stages == [InstallCxxbridge] + BindingStages()[..2 * k]
    {
      var p := BindingModules[k];
      assert BindingStages()[..2 * (k + 1)]
          == BindingStages()[..2 * k] + [GenerateBinding(p, p + "-rs.cpp"), GenerateBinding(p, p + "-rs.hpp")];
      stages := stages + [GenerateBinding(p, p + "-rs.cpp"), GenerateBinding(p, p + "-rs.hpp")];
    }
    assert BindingStages()[..2 * |BindingModules|] == BindingStages();
    ghost var prefix := stages;
    for a := 0 to |Archs|
      invariant stages == prefix + CompileStages(crates, release)[..a]
    {
      var triple := Triples[a];
      var rustTriple := if "armv7" <= triple then NeonTriple else triple;
      assert CompileStages(crates, release)[..a + 1]
          == CompileStages(crates, release)[..a] + [CompileStage(a, crates, release)];
      stages := stages + [CargoBuild(Archs[a], rustTriple, "--target=" + triple + "21", crates, release)];
    }
    assert CompileStages(crates, release)[..|Archs|] == CompileStages(crates, release);
  }

  /**
   * cxxbridge is installed first, every binding is generated before any
   * architecture is compiled, and each compile builds exactly the
   * requested Rust crates.
   */
  lemma CargoStagesShape(targets: set<Target>, release: bool)
    ensures var s := CargoStages(targets, release);
      |s| == 15 && s[0] == InstallCxxbridge &&
      (forall j :: 1 <= j < 11 ==> s[j].GenerateBinding?) &&
      (forall a :: 11 <= a < 15 ==> s[a].CargoBuild? && s[a].arch == Archs[a - 11]) &&
      (forall a :: 11 <= a < 15 ==> forall t :: t in s[a].crates <==> t in targets && t in RustTargets)
  {
    var s := CargoStages(targets, release);
    var c := CompileStages(Crates(targets), release);
    forall j | 1 <= j < 11
      ensures s[j].GenerateBinding?
    {
      assert s[j] == BindingStages()[j - 1];
    }
    forall a | 11 <= a < 15
      ensures s[a].CargoBuild? && s[a].arch == Archs[a - 11] && s[a].crates == Crates(targets)
    {
      assert s[a] == c[a - 11];
    }
  }

  /*
   * First-pass flags
   */

  /** The targets of the first ndk-build pass and their variables, in the order build_binary tests them. */
  const FirstPassTable: seq<(Target, string)> := [
    (Magisk, "B_MAGISK=1"), (MagiskPolicy, "B_POLICY=1"), (Test, "B_TEST=1"),
    (MagiskInit, "B_PRELOAD=1"), (Resetprop, "B_PROP=1"), (MagiskBoot, "B_BOOT=1")]

  /** The variables of the table whose target is selected, in table order. */
  function Selected(table: seq<(Target, string)>, targets: set<Target>): (r: seq<string>)
    ensures |r| <= |table|
    ensures forall w :: w in r ==> exists i :: 0 <= i < |table| && table[i].1 == w && table[i].0 in targets
  {
    if table == [] then []
    else (if table[0].0 in targets then [table[0].1] else []) + Selected(table[1..], targets)
  }

  /** The flag string: each selected variable preceded by one space. */
  function FlagString(table: seq<(Target, string)>, targets: set<Target>): string
  {
    if table == [] then ""
    else (if table[0].0 in targets then " " + table[0].1 else "") + FlagString(table[1..], targets)
  }

  /** A non-empty string splits into an empty first part exactly when it starts with the separator. */
  lemma SplitEmptyHead(s: string, sep: char)
    requires s != []
    ensures BuildConfig.Split(s, sep)[0] == "" <==> s[0] == sep
  {
    if s[0] != sep {
      var rest := BuildConfig.Split(s[1..], sep);
      assert BuildConfig.Split(s, sep)[0] == [s[0]] + rest[0];
    }
  }

  lemma SplitLeadingSeparator(tail: string, sep: char)
    ensures BuildConfig.Split([sep] + tail, sep) == [""] + BuildConfig.Split(tail, sep)
  {
    assert ([sep] + tail)[1..] == tail;
  }

  /** Splitting a word followed by a string that starts with the separator (or is empty). */
  lemma SplitWordThen(w: string, rest: string, sep: char)
    requires sep !in w
    requires rest == [] || rest[0] == sep
    ensures BuildConfig.Split(w + rest, sep) ==
      [w] + (if rest == [] then [] else BuildConfig.Split(rest, sep)[1..])
  {
    if rest == [] {
      assert w + rest == w;
      BuildConfig.SplitAbsent(w, sep);
    } else {
      var tail := rest[1..];
      assert rest == [sep] + tail;
      assert w + rest == w + [sep] + tail;
      BuildConfig.SplitAt(w, sep, tail);
      SplitLeadingSeparator(tail, sep);
    }
  }

  /** Splitting the flag string on spaces gives back exactly the selected variables. */
  lemma {:induction false} FlagStringWords(table: seq<(Target, string)>, targets: set<Target>)
    requires forall i :: 0 <= i < |table| ==> ' ' !in table[i].1
    ensures BuildConfig.Split(FlagString(table, targets), ' ') == [""] + Selected(table, targets)
  {
    if table != [] {
      var rest := FlagString(table[1..], targets);
      FlagStringWords(table[1..], targets);
      if table[0].0 in targets {
        var w := table[0].1;
        assert FlagString(table, targets) == [' '] + (w + rest);
        SplitLeadingSeparator(w + rest, ' ');
        if rest != [] {
          SplitEmptyHead(rest, ' ');
        }
        SplitWordThen(w, rest, ' ');
        assert Selected(table, targets) == [w] + Selected(table[1..], targets);
      } else {
        assert FlagString(table, targets) == rest;
        assert Selected(table, targets) == Selected(table[1..], targets);
      }
    }
  }

  /** With distinct variables, a variable is selected exactly when its target is requested. */
  lemma {:induction false} SelectedIff(table: seq<(Target, string)>, targets: set<Target>, i: nat)
    requires i < |table|
    requires forall p, q :: 0 <= p < q < |table| ==> table[p].1 != table[q].1
    ensures table[i].1 in Selected(table, targets) <==> table[i].0 in targets
  {
    if i == 0 {
    } else {
      SelectedIff(table[1..], targets, i - 1);
      assert table[1..][i - 1] == table[i];
      if table[0].0 in targets {
        assert table[0].1 != table[i].1;
      }
    }
  }

  lemma FirstPassVariablesDistinct()
    ensures forall i :: 0 <= i < |FirstPassTable| ==> ' ' !in FirstPassTable[i].1 && FirstPassTable[i].1 != ""
    ensures forall p, q :: 0 <= p < q < |FirstPassTable| ==> FirstPassTable[p].1 != FirstPassTable[q].1
  {
    forall p, q | 0 <= p < q < |FirstPassTable|
      ensures FirstPassTable[p].1 != FirstPassTable[q].1
    {
      var u, v := FirstPassTable[p].1, FirstPassTable[q].1;
      assert (u[2], u[4]) != (v[2], v[4]);
    }
  }

  /**
   * The first-pass flags name exactly the requested first-pass targets,
   * space separated and in table order; they are empty exactly when no
   * first-pass target is requested and otherwise start with a space.
   */
  lemma FirstPassFlags(targets: set<Target>)
    ensures var words := BuildConfig.Split(FlagString(FirstPassTable, targets), ' ');
      words == [""] + Selected(FirstPassTable, targets) &&
      (forall i :: 0 <= i < |FirstPassTable| ==>
        (FirstPassTable[i].1 in words <==> FirstPassTable[i].0 in targets))
    ensures FlagString(FirstPassTable, targets) == "" <==>
      forall i :: 0 <= i < |FirstPassTable| ==> FirstPassTable[i].0 !in targets
    ensures FlagString(FirstPassTable, targets) != "" ==> FlagString(FirstPassTable, targets)[0] == ' '
  {
    FirstPassVariablesDistinct();
    FlagStringWords(FirstPassTable, targets);
    var flags := FlagString(FirstPassTable, targets);
    var words := BuildConfig.Split(flags, ' ');
    forall i | 0 <= i < |FirstPassTable|
      ensures FirstPassTable[i].1 in words <==> FirstPassTable[i].0 in targets
    {
      SelectedIff(FirstPassTable, targets, i);
    }
    if flags != "" {
      SplitEmptyHead(flags, ' ');
    } else {
      assert words == [""];
    }
    FlagSelectedEmpty(FirstPassTable, targets);
  }

  lemma {:induction false} FlagSelectedEmpty(table: seq<(Target, string)>, targets: set<Target>)
    ensures FlagString(table, targets) == "" <==> Selected(table, targets) == []
    ensures Selected(table, targets) == [] <==> forall i :: 0 <= i < |table| ==> table[i].0 !in targets
  {
    if table != [] {
      FlagSelectedEmpty(table[1..], targets);
      assert forall i :: 1 <= i < |table| ==> table[i] == table[1..][i - 1];
    }
  }

  /*
   * The flags header
   */

  /**
   * The five fixed lines at the top of flags.h (the dedented block); each
   * `#define` is its name padded to the value column, then its value.
   */
  const FlagPreambleLines: seq<string> := [
    "#pragma once",
    "#define quote(s)            " + "#s",
    "#define str(s)              " + "quote(s)",
    "#define MAGISK_FULL_VER     " + "MAGISK_VERSION \"(\" str(MAGISK_VER_CODE) \")\"",
    "#define NAME_WITH_VER(name) " + "str(name) \" \" MAGISK_FULL_VER"
  ]
  const VersionKey: string := "#define MAGISK_VERSION      \""
  const CodeKey: string := "#define MAGISK_VER_CODE     "
  const DebugKey: string := "#define MAGISK_DEBUG        "

  /** MAGISK_DEBUG is 0 for a release build and 1 otherwise. */
  function DebugValue(release: bool): string {
    if release then "0" else "1"
  }

  /** The lines of flags.h: the preamble, then the version, the version code and the debug switch. */
  function FlagLines(version: string, versionCode: int, release: bool): seq<string> {
    FlagPreambleLines + [VersionKey + version + "\"", CodeKey + BuildConfig.ShowInt(versionCode), DebugKey + DebugValue(release)]
  }

  /**
   * dump_flag_header's text: every line of FlagLines followed by a newline.
   * For a version without a newline, splitting the text on newlines gives
   * back exactly those eight lines and the empty piece after the last newline.
   */
  function FlagHeader(version: string, versionCode: int, release: bool): (r: string)
    ensures '\n' !in version ==> BuildConfig.Split(r, '\n') == FlagLines(version, versionCode, release) + [""]
  {
    var lines := FlagLines(version, versionCode, release) + [""];
    if '\n' !in version then
      FlagLinesSingle(version, versionCode, release);
      BuildConfig.JoinSplit(lines, '\n');
      BuildConfig.JoinWith(lines, '\n')
    else BuildConfig.JoinWith(lines, '\n')
  }

  /** No line of flags.h holds a newline, given a version without one. */
  lemma FlagLinesSingle(version: string, versionCode: int, release: bool)
    requires '\n' !in version
    ensures forall i :: 0 <= i < |FlagLines(version, versionCode, release) + [""]| ==>
      '\n' !in (FlagLines(version, versionCode, release) + [""])[i]
  {
    var s := BuildConfig.ShowInt(versionCode);
    assert SingleLine(s) by {
      forall i | 0 <= i < |s| ensures s[i] != '\n' {
        assert BuildConfig.IsDigit(s[i]) || s[i] == '-';
      }
    }
    PreambleNamesSingle();
    PreambleValuesSingle();
    var tail := [VersionKey + version + "\"", CodeKey + s, DebugKey + DebugValue(release), ""];
    assert SingleLine(VersionKey) && SingleLine(CodeKey) && SingleLine(DebugKey) && SingleLine(DebugValue(release));
    assert SingleLine(tail[0]) && SingleLine(tail[1]) && SingleLine(tail[2]);
    var lines := FlagPreambleLines + tail;
    assert FlagLines(version, versionCode, release) + [""] == lines;
    forall i | 0 <= i < |lines| ensures SingleLine(lines[i]) {
      if i >= 5 {
        assert lines[i] == tail[i - 5];
      }
    }
  }

  predicate SingleLine(s: string) {
    forall j :: 0 <= j < |s| ==> s[j] != '\n'
  }

  lemma PreambleNamesSingle()
    ensures SingleLine("#pragma once") && SingleLine("#define quote(s)            ")
    ensures SingleLine("#define str(s)              ") && SingleLine("#define MAGISK_FULL_VER     ")
    ensures SingleLine("#define NAME_WITH_VER(name) ")
  {
  }

  lemma PreambleValuesSingle()
    ensures SingleLine("#s") && SingleLine("quote(s)") && SingleLine("str(name) \" \" MAGISK_FULL_VER")
    ensures SingleLine("MAGISK_VERSION \"(\" str(MAGISK_VER_CODE) \")\"")
  {
  }

  /** The version-code and debug lines with the newlines around them. */
  function FlagFields(versionCode: int, release: bool): string
  {
    "\n" + (CodeKey + (BuildConfig.ShowInt(versionCode) + ("\n" + (DebugKey + (DebugValue(release) + "\n")))))
  }

  /** The header is the preamble, the version key, the version, its closing quote and the fields. */
  lemma FlagHeaderPieces(version: string, versionCode: int, release: bool)
    ensures FlagHeader(version, versionCode, release) ==
      (BuildConfig.JoinWith(FlagPreambleLines, '\n') + "\n" + VersionKey) + (version + ("\"" + FlagFields(versionCode, release)))
  {
    var s, dv := BuildConfig.ShowInt(versionCode), DebugValue(release);
    var v, c, d := VersionKey + version + "\"", CodeKey + s, DebugKey + dv;
    var tail := [v, c, d, ""];
    assert FlagLines(version, versionCode, release) + [""] == FlagPreambleLines + tail;
    BuildConfig.JoinWithAppend(FlagPreambleLines, tail, '\n');
    assert tail[1..] == [c, d, ""] && [c, d, ""][1..] == [d, ""] && [d, ""][1..] == [""];
    assert BuildConfig.JoinWith([d, ""], '\n') == d + "\n";
    assert BuildConfig.JoinWith([c, d, ""], '\n') == c + "\n" + (d + "\n");
    assert BuildConfig.JoinWith(tail, '\n') == v + "\n" + (c + "\n" + (d + "\n"));
    Regroup(BuildConfig.JoinWith(FlagPreambleLines, '\n'), VersionKey, version, CodeKey, s, DebugKey, dv);
  }

  lemma Regroup(p: string, vk: string, version: string, ck: string, s: string, dk: string, dv: string)
    ensures p + ['\n'] + ((vk + version + "\"") + "\n" + ((ck + s) + "\n" + ((dk + dv) + "\n")))
         == (p + "\n" + vk) + (version + ("\"" + ("\n" + (ck + (s + ("\n" + (dk + (dv + "\n"))))))))
  {
  }

  /** Where a separator that neither left part contains occurs, the two left parts agree. */
  lemma FirstSeparator(a: string, b: string, x: string, y: string, c: char)
    requires c !in a && c !in b
    requires a + ([c] + x) == b + ([c] + y)
    ensures a == b && x == y
  {
    var s := a + ([c] + x);
    assert s[|a|] == c && forall i :: 0 <= i < |a| ==> s[i] == a[i];
    assert s[|b|] == c && forall i :: 0 <= i < |b| ==> s[i] == b[i];
    assert |a| == |b|;
    {
      assert a == (a + ([c] + x))[..|a|];
      assert b == (b + ([c] + y))[..|b|];
      assert x == (a + ([c] + x))[|a| + 1..];
      assert y == (b + ([c] + y))[|b| + 1..];
    }
  }

  /** Where a separator that neither right part contains occurs, the two right parts agree. */
  lemma LastSeparator(a: string, b: string, x: string, y: string, c: char)
    requires c !in x && c !in y
    requires a + ([c] + x) == b + ([c] + y)
    ensures a == b && x == y
  {
    var s := a + ([c] + x);
    assert s[|a|] == c && forall i :: |a| < i < |s| ==> s[i] == x[i - |a| - 1];
    assert s[|b|] == c && forall i :: |b| < i < |s| ==> s[i] == y[i - |b| - 1];
    assert |a| == |b|;
    {
      assert a == (a + ([c] + x))[..|a|];
      assert b == (b + ([c] + y))[..|b|];
      assert x == (a + ([c] + x))[|a| + 1..];
      assert y == (b + ([c] + y))[|b| + 1..];
    }
  }

  lemma PrefixCancel(p: string, x: string, y: string)
    requires p + x == p + y
    ensures x == y
  {
    assert x == (p + x)[|p|..];
  }

  lemma FlagFieldsInjective(c1: int, r1: bool, c2: int, r2: bool)
    requires FlagFields(c1, r1) == FlagFields(c2, r2)
    ensures c1 == c2 && r1 == r2
  {
    var s1, s2 := BuildConfig.ShowInt(c1), BuildConfig.ShowInt(c2);
    var d1: string := DebugKey + (DebugValue(r1) + "\n");
    var d2: string := DebugKey + (DebugValue(r2) + "\n");
    PrefixCancel("\n", CodeKey + (s1 + ("\n" + d1)), CodeKey + (s2 + ("\n" + d2)));
    PrefixCancel(CodeKey, s1 + ("\n" + d1), s2 + ("\n" + d2));
    assert '\n' !in s1 && '\n' !in s2;
    FirstSeparator(s1, s2, d1, d2, '\n');
    BuildConfig.ParseShowInt(c1);
    BuildConfig.ParseShowInt(c2);
    assert d1[|DebugKey|] == d2[|DebugKey|];
  }

  /**
   * The header determines its inputs: write_if_diff rewrites flags.h
   * exactly when the version, the version code or the build type changed.
   * The version is everything between the version key and the last double
   * quote, since the lines after it contain none.
   */
  lemma FlagHeaderInjective(v1: string, c1: int, r1: bool, v2: string, c2: int, r2: bool)
    ensures FlagHeader(v1, c1, r1) == FlagHeader(v2, c2, r2) <==> v1 == v2 && c1 == c2 && r1 == r2
  {
    if FlagHeader(v1, c1, r1) == FlagHeader(v2, c2, r2) {
      var pre := BuildConfig.JoinWith(FlagPreambleLines, '\n') + "\n" + VersionKey;
      FlagHeaderPieces(v1, c1, r1);
      FlagHeaderPieces(v2, c2, r2);
      PrefixCancel(pre, v1 + ("\"" + FlagFields(c1, r1)), v2 + ("\"" + FlagFields(c2, r2)));
      FieldsUnquoted(c1, r1);
      FieldsUnquoted(c2, r2);
      LastSeparator(v1, v2, FlagFields(c1, r1), FlagFields(c2, r2), '"');
      FlagFieldsInjective(c1, r1, c2, r2);
    }
  }

  lemma FieldsUnquoted(versionCode: int, release: bool)
    ensures '"' !in FlagFields(versionCode, release)
  {
    var s := BuildConfig.ShowInt(versionCode);
    assert '"' !in s by {
      forall i | 0 <= i < |s| ensures s[i] != '"' {
        assert BuildConfig.IsDigit(s[i]) || s[i] == '-';
      }
    }
    assert '"' !in CodeKey && '"' !in DebugKey && '"' !in DebugValue(release);
    var tail := "\n" + (DebugKey + (DebugValue(release) + "\n"));
    assert '"' !in tail;
    assert '"' !in CodeKey + (s + tail);
  }

  /*
   * build_binary
   */

  /** The NDK check: the installed ONDK_VERSION file, stripped, equals the configured ondkVersion. */
  predicate NdkMatches(installed: Option<string>, props: map<string, string>): (r: bool)
    ensures r ==> installed.Some? && "ondkVersion" in props && BuildConfig.IsStripped(props["ondkVersion"])
  {
    installed.Some? && "ondkVersion" in props && BuildConfig.Strip(installed.value) == props["ondkVersion"]
  }

  /** Blanks around the content of ONDK_VERSION never decide the check. */
  lemma NdkIgnoresBlanks(content: string, props: map<string, string>)
    ensures NdkMatches(Some(content), props) == NdkMatches(Some(BuildConfig.Strip(content)), props)
  {
    BuildConfig.StripStripped(BuildConfig.Strip(content));
  }

  /** The stub APK that dump_bin_header embeds: os.path.join(outdir, "stub-<release|debug>.apk"). */
  function StubPath(outdir: string, release: bool): string
  {
    TarGuard.Join(outdir, "stub-" + (if release then "release" else "debug") + ".apk")
  }

  /** The first ndk-build pass and the ELF cleaner after it, when any first-pass target is selected. */
  function FirstPass(targets: set<Target>): seq<Stage>
  {
    var flags := FlagString(FirstPassTable, targets);
    if flags != "" then [NdkBuild(flags), CleanElf] else []
  }

  /** The stages after the first ndk-build pass: magiskinit, then busybox, each in a pass of its own. */
  function LateStages(targets: set<Target>, stub: string, stubExists: bool): seq<Stage>
  {
    if MagiskInit in targets && !stubExists then [Fatal(MissingStub(stub))]
    else
      (if MagiskInit in targets then [DumpBinHeader(stub), NdkBuild("B_INIT=1")] else [])
      + (if Busybox in targets then [NdkBuild("B_BB=1")] else [])
  }

  /** The stages before the first ndk-build pass: the Rust build, then the flags header. */
  function HeadStages(targets: set<Target>, release: bool, header: string): seq<Stage>
  {
    CargoStages(targets, release) + [WriteFlagHeader(header)]
  }

  /** The stages for a resolved set of targets, after the given preparatory stages. */
  function BuildStages(head: seq<Stage>, targets: set<Target>, stub: string, stubExists: bool): seq<Stage>
  {
    head + FirstPass(targets) + LateStages(targets, stub, stubExists)
  }

  /**
   * Everything build_binary does, given the request, the build type, the
   * loaded configuration, the content of ONDK_VERSION (None when it cannot
   * be read) and whether the stub APK exists. Every external tool is taken
   * to succeed.
   */
  function Plan(request: seq<string>, release: bool, config: BuildConfig.Config,
                installed: Option<string>, stubExists: bool): (r: seq<Stage>)
    requires "version" in config.props && "outdir" in config.props
    ensures r == [Fatal(UnmatchedNdk)] <==> !NdkMatches(installed, config.props)
  {
    PlanWith(NdkMatches(installed, config.props), ResolveTargets(request), release,
             FlagHeader(config.props["version"], config.versionCode, release),
             StubPath(config.props["outdir"], release), stubExists)
  }

  /**
   * The plan once the NDK check, the target resolution, the flags header and
   * the stub path are known: a failed check is the one fatal stage, an
   * unresolved request no stage at all.
   */
  function PlanWith(ndkOk: bool, resolved: Option<set<Target>>, release: bool, header: string,
                    stub: string, stubExists: bool): (r: seq<Stage>)
    ensures r == [Fatal(UnmatchedNdk)] <==> !ndkOk
    ensures r == [] <==> ndkOk && resolved.None?
  {
    if !ndkOk then [Fatal(UnmatchedNdk)]
    else match resolved
      case None => []
      case Some(targets) =>
        StagesStart(targets, release, header, stub, stubExists);
        BuildStages(HeadStages(targets, release, header), targets, stub, stubExists)
  }

  /** build_binary: its stages are the plan's. */
  method BuildBinary(request: seq<string>, release: bool, config: BuildConfig.Config,
                     installed: Option<string>, stubExists: bool) returns (stages: seq<Stage>)
    requires "version" in config.props && "outdir" in config.props
    ensures stages == Plan(request, release, config, installed, stubExists)
  {
    if !NdkMatches(installed, config.props) {
      return [Fatal(UnmatchedNdk)];
    }
    var targets: set<Target>;
    if request != [] {
      targets := set t | t in SupportTargets && Name(t) in request;
      if targets == {} {
        assert ResolveTargets(request).None?;
        return [];
      }
    } else {
      targets := AsSet(DefaultTargets);
    }
    assert ResolveTargets(request) == Some(targets);
    var header := FlagHeader(config.props["version"], config.versionCode, release);
    var stub := StubPath(config.props["outdir"], release);
    stages := BuildTargets(targets, release, header, stub, stubExists);
  }

  /** The part of build_binary after the targets are resolved. */
  method BuildTargets(targets: set<Target>, release: bool, header: string, stub: string, stubExists: bool)
    returns (stages: seq<Stage>)
    ensures stages == BuildStages(HeadStages(targets, release, header), targets, stub, stubExists)
  {
    stages := RunCargoBuild(targets, release);
    stages := stages + [WriteFlagHeader(header)];
    var flag := FlagString(FirstPassTable, targets);
    if flag != "" {
      stages := stages + [NdkBuild(flag), CleanElf];
    }
    ghost var early := stages;
    assert early == HeadStages(targets, release, header) + FirstPass(targets);
    if MagiskInit in targets {
      if !stubExists {
        return stages + [Fatal(MissingStub(stub))];
      }
      stages := stages + [DumpBinHeader(stub), NdkBuild("B_INIT=1")];
    }
    if Busybox in targets {
      stages := stages + [NdkBuild("B_BB=1")];
    }
    assert stages == early + LateStages(targets, stub, stubExists);
  }

  /*
   * Properties of the plan
   */

  predicate Preparatory(s: Stage)
  {
    s.InstallCxxbridge? || s.GenerateBinding? || s.CargoBuild? || s.WriteFlagHeader?
  }

  /** The flag strings of the ndk-build passes of a stage list, in order. */
  function NdkPasses(p: seq<Stage>): seq<string>
  {
    if p == [] then []
    else NdkPasses(p[..|p| - 1]) + (if p[|p| - 1].NdkBuild? then [p[|p| - 1].flags] else [])
  }

  lemma {:induction false} NdkPassesAppend(p: seq<Stage>, q: seq<Stage>)
    ensures NdkPasses(p + q) == NdkPasses(p) + NdkPasses(q)
  {
    if q != [] {
      NdkPassesAppend(p, q[..|q| - 1]);
      assert (p + q)[..|p + q| - 1] == p + q[..|q| - 1];
    } else {
      assert p + q == p;
    }
  }

  lemma {:induction false} NdkPassesNone(p: seq<Stage>)
    requires forall i :: 0 <= i < |p| ==> Preparatory(p[i])
    ensures NdkPasses(p) == []
  {
    if p != [] {
      NdkPassesNone(p[..|p| - 1]);
    }
  }

  /** A failed NDK check stops everything; a request naming no supported target does nothing. */
  lemma PlanEarlyExits(request: seq<string>, release: bool, config: BuildConfig.Config,
                       installed: Option<string>, stubExists: bool)
    requires "version" in config.props && "outdir" in config.props
    ensures !NdkMatches(installed, config.props) ==>
      Plan(request, release, config, installed, stubExists) == [Fatal(UnmatchedNdk)]
    ensures NdkMatches(installed, config.props) ==>
      (Plan(request, release, config, installed, stubExists) == [] <==>
       request != [] && forall t :: t in SupportTargets ==> Name(t) !in request)
  {
  }

  /** A build of resolved targets starts with the cxxbridge install. */
  lemma StagesStart(targets: set<Target>, release: bool, header: string, stub: string, stubExists: bool)
    ensures var p := BuildStages(HeadStages(targets, release, header), targets, stub, stubExists);
      p != [] && p[0] == InstallCxxbridge
  {
  }

  /**
   * Rust and the flags header come first: no preparatory stage follows a
   * stage that is not, and a fatal error is always the last stage.
   */
  lemma StagesOrder(head: seq<Stage>, targets: set<Target>, stub: string, stubExists: bool)
    requires forall i :: 0 <= i < |head| ==> Preparatory(head[i])
    ensures var p := BuildStages(head, targets, stub, stubExists);
      (forall i, j :: 0 <= i < j < |p| && !Preparatory(p[i]) ==> !Preparatory(p[j])) &&
      (forall i :: 0 <= i < |p| && p[i].Fatal? ==> i == |p| - 1)
  {
    var p := BuildStages(head, targets, stub, stubExists);
    var tail := FirstPass(targets) + LateStages(targets, stub, stubExists);
    assert p == head + tail;
    TailOrder(targets, stub, stubExists);
    forall i, j | 0 <= i < j < |p| && !Preparatory(p[i])
      ensures !Preparatory(p[j])
    {
      assert p[j] == tail[j - |head|];
    }
    forall i | 0 <= i < |p| && p[i].Fatal?
      ensures i == |p| - 1
    {
      assert p[i] == tail[i - |head|];
    }
  }

  /** After the preparatory stages nothing is preparatory, and a fatal error ends the list. */
  lemma TailOrder(targets: set<Target>, stub: string, stubExists: bool)
    ensures var tail := FirstPass(targets) + LateStages(targets, stub, stubExists);
      forall j :: 0 <= j < |tail| ==> !Preparatory(tail[j]) && (tail[j].Fatal? ==> j == |tail| - 1)
  {
  }

  lemma FirstPassPasses(targets: set<Target>)
    ensures NdkPasses(FirstPass(targets)) ==
      if FlagString(FirstPassTable, targets) != "" then [FlagString(FirstPassTable, targets)] else []
  {
    var flags := FlagString(FirstPassTable, targets);
    if flags != "" {
      var first := FirstPass(targets);
      assert first[..1] == [NdkBuild(flags)];
      assert first[..1][..0] == [];
      assert NdkPasses(first[..1]) == [flags];
    }
  }

  lemma LatePasses(targets: set<Target>, stub: string, stubExists: bool)
    ensures NdkPasses(LateStages(targets, stub, stubExists)) ==
      (if MagiskInit in targets && stubExists then ["B_INIT=1"] else [])
      + (if Busybox in targets && (MagiskInit !in targets || stubExists) then ["B_BB=1"] else [])
  {
    var late := LateStages(targets, stub, stubExists);
    if MagiskInit in targets && stubExists {
      var init := [DumpBinHeader(stub), NdkBuild("B_INIT=1")];
      var bb := if Busybox in targets then [NdkBuild("B_BB=1")] else [];
      assert late == init + bb;
      NdkPassesAppend(init, bb);
      assert init[..1] == [DumpBinHeader(stub)];
      assert NdkPasses(init) == ["B_INIT=1"];
      if Busybox in targets {
        assert bb[..0] == [];
      }
    } else if Busybox in targets && MagiskInit !in targets {
      assert late == [NdkBuild("B_BB=1")];
      assert late[..0] == [];
    } else if late != [] {
      assert late == [Fatal(MissingStub(stub))];
      assert late[..0] == [];
    }
  }

  /**
   * The ndk-build passes, in order: the first pass when some first-pass
   * target is selected, the magiskinit pass when magiskinit is selected and
   * the stub exists, and the busybox pass unless the missing stub stopped
   * the build.
   */
  lemma StagesPasses(head: seq<Stage>, targets: set<Target>, stub: string, stubExists: bool)
    requires forall i :: 0 <= i < |head| ==> Preparatory(head[i])
    ensures var flags := FlagString(FirstPassTable, targets);
      NdkPasses(BuildStages(head, targets, stub, stubExists)) ==
        (if flags != "" then [flags] else [])
        + ((if MagiskInit in targets && stubExists then ["B_INIT=1"] else [])
           + (if Busybox in targets && (MagiskInit !in targets || stubExists) then ["B_BB=1"] else []))
  {
    TailPasses(head, targets, stub, stubExists);
    FirstPassPasses(targets);
    LatePasses(targets, stub, stubExists);
  }

  lemma TailPasses(head: seq<Stage>, targets: set<Target>, stub: string, stubExists: bool)
    requires forall i :: 0 <= i < |head| ==> Preparatory(head[i])
    ensures NdkPasses(BuildStages(head, targets, stub, stubExists))
         == NdkPasses(FirstPass(targets)) + NdkPasses(LateStages(targets, stub, stubExists))
  {
    var first := FirstPass(targets);
    var late := LateStages(targets, stub, stubExists);
    NdkPassesNone(head);
    NdkPassesAppend(head, first);
    NdkPassesAppend(head + first, late);
    assert NdkPasses(head + first) == NdkPasses(first);
  }

  /** The magiskinit pass always comes right after the stub is embedded. */
  lemma InitAfterStub(head: seq<Stage>, targets: set<Target>, stub: string, stubExists: bool)
    requires forall i :: 0 <= i < |head| ==> Preparatory(head[i])
    ensures var p := BuildStages(head, targets, stub, stubExists);
      forall i :: 0 < i < |p| && p[i] == NdkBuild("B_INIT=1") ==> p[i - 1] == DumpBinHeader(stub)
  {
    var p := BuildStages(head, targets, stub, stubExists);
    var first := FirstPass(targets);
    var late := LateStages(targets, stub, stubExists);
    var tail := first + late;
    assert p == head + tail;
    FirstPassNoInit(targets);
    forall i | 0 < i < |p| && p[i] == NdkBuild("B_INIT=1")
      ensures p[i - 1] == DumpBinHeader(stub)
    {
      assert i >= |head|;
      var j := i - |head|;
      assert tail[j] == p[i];
      assert j >= |first|;
      LateInit(targets, stub, stubExists, j - |first|);
      assert p[i - 1] == tail[j - 1];
    }
  }

  /** The first pass never runs the magiskinit pass: its flags start with a space. */
  lemma FirstPassNoInit(targets: set<Target>)
    ensures forall k :: 0 <= k < |FirstPass(targets)| ==> FirstPass(targets)[k] != NdkBuild("B_INIT=1")
  {
    var flags := FlagString(FirstPassTable, targets);
    if flags != "" {
      FirstPassFlags(targets);
      assert flags[0] != "B_INIT=1"[0];
    }
  }

  /** In the late stages the magiskinit pass is second, right after the stub is embedded. */
  lemma LateInit(targets: set<Target>, stub: string, stubExists: bool, k: nat)
    requires k < |LateStages(targets, stub, stubExists)|
    requires LateStages(targets, stub, stubExists)[k] == NdkBuild("B_INIT=1")
    ensures k == 1 && LateStages(targets, stub, stubExists)[0] == DumpBinHeader(stub)
  {
    assert "B_BB=1" != "B_INIT=1";
  }

  /** A missing stub is fatal exactly when magiskinit is selected. */
  lemma MissingStubFatal(head: seq<Stage>, targets: set<Target>, stub: string, stubExists: bool)
    requires forall i :: 0 <= i < |head| ==> Preparatory(head[i])
    ensures Fatal(MissingStub(stub)) in BuildStages(head, targets, stub, stubExists)
        <==> MagiskInit in targets && !stubExists
  {
    var p := BuildStages(head, targets, stub, stubExists);
    var tail := FirstPass(targets) + LateStages(targets, stub, stubExists);
    assert p == head + tail;
    if Fatal(MissingStub(stub)) in p {
      var i :| 0 <= i < |p| && p[i] == Fatal(MissingStub(stub));
      assert p[i] == tail[i - |head|];
    }
    if MagiskInit in targets && !stubExists {
      assert p[|p| - 1] == Fatal(MissingStub(stub));
    }
  }

  /** The Rust build and the flags header are all preparatory, and run no ndk-build pass. */
  lemma HeadPreparatory(targets: set<Target>, release: bool, header: string)
    ensures forall i :: 0 <= i < |HeadStages(targets, release, header)| ==> Preparatory(HeadStages(targets, release, header)[i])
  {
    var head := HeadStages(targets, release, header);
    CargoStagesShape(targets, release);
    forall i | 0 <= i < |head|
      ensures Preparatory(head[i])
    {
      if i < 15 {
        assert head[i] == CargoStages(targets, release)[i];
      }
    }
  }

  lemma ResolveMagiskOnly()
    ensures ResolveTargets(["magisk"]) == Some({Magisk})
  {
    forall t | t in SupportTargets
      ensures Name(t) in ["magisk"] <==> t == Magisk
    {
      NameInjective(t, Magisk);
    }
    assert Magisk in SupportTargets;
    assert ResolveTargets(["magisk"]).value == {Magisk};
  }

  lemma SelectedStep(table: seq<(Target, string)>, targets: set<Target>, k: nat)
    requires k < |table|
    ensures Selected(table[k..], targets)
         == (if table[k].0 in targets then [table[k].1] else []) + Selected(table[k + 1..], targets)
  {
    assert table[k..][1..] == table[k + 1..];
  }

  lemma SelectedMagiskOnly(t: set<Target>)
    requires t == {Magisk}
    ensures Selected(FirstPassTable, t) == ["B_MAGISK=1"]
  {
    var tab := FirstPassTable;
    assert tab[6..] == [] && Selected(tab[6..], t) == [];
    SelectedStep(tab, t, 5);
    assert Selected(tab[5..], t) == [];
    SelectedStep(tab, t, 4);
    assert Selected(tab[4..], t) == [];
    SelectedStep(tab, t, 3);
    assert Selected(tab[3..], t) == [];
    SelectedStep(tab, t, 2);
    assert Selected(tab[2..], t) == [];
    SelectedStep(tab, t, 1);
    assert Selected(tab[1..], t) == [];
    SelectedStep(tab, t, 0);
    assert tab[0..] == tab;
  }

  lemma SelectedDefault(t: set<Target>)
    requires Magisk in t && MagiskPolicy in t && MagiskInit in t && MagiskBoot in t
    requires Test !in t && Resetprop !in t
    ensures Selected(FirstPassTable, t) == ["B_MAGISK=1", "B_POLICY=1", "B_PRELOAD=1", "B_BOOT=1"]
  {
    var tab := FirstPassTable;
    SelectedDefaultTail(t);
    SelectedStep(tab, t, 2);
    assert Selected(tab[2..], t) == ["B_PRELOAD=1", "B_BOOT=1"];
    SelectedStep(tab, t, 1);
    assert Selected(tab[1..], t) == ["B_POLICY=1", "B_PRELOAD=1", "B_BOOT=1"];
    SelectedStep(tab, t, 0);
    assert tab[0..] == tab;
  }

  lemma SelectedDefaultTail(t: set<Target>)
    requires MagiskInit in t && MagiskBoot in t && Resetprop !in t
    ensures Selected(FirstPassTable[3..], t) == ["B_PRELOAD=1", "B_BOOT=1"]
  {
    var tab := FirstPassTable;
    assert tab[6..] == [] && Selected(tab[6..], t) == [];
    SelectedStep(tab, t, 5);
    assert Selected(tab[5..], t) == ["B_BOOT=1"];
    SelectedStep(tab, t, 4);
    assert Selected(tab[4..], t) == ["B_BOOT=1"];
    SelectedStep(tab, t, 3);
  }

  /** Building magisk alone: after the Rust build and the header, one ndk-build pass of B_MAGISK=1. */
  lemma StagesMagiskOnly(head: seq<Stage>, t: set<Target>, stub: string, stubExists: bool)
    requires t == {Magisk}
    ensures var flags := FlagString(FirstPassTable, t);
      BuildStages(head, t, stub, stubExists) == head + [NdkBuild(flags), CleanElf] &&
      BuildConfig.Split(flags, ' ') == ["", "B_MAGISK=1"]
  {
    SelectedMagiskOnly(t);
    FirstPassFlags(t);
    assert FirstPassTable[0].0 in t;
    assert LateStages(t, stub, stubExists) == [];
  }

  /**
   * The default build: one first pass of magisk, magiskpolicy, magiskinit's
   * preload and magiskboot, then the magiskinit pass, then busybox last.
   */
  lemma StagesDefault(head: seq<Stage>, t: set<Target>, stub: string)
    requires forall u :: u in t <==> u in DefaultTargets
    ensures var flags := FlagString(FirstPassTable, t);
      BuildStages(head, t, stub, true)
         == head + [NdkBuild(flags), CleanElf, DumpBinHeader(stub), NdkBuild("B_INIT=1"), NdkBuild("B_BB=1")] &&
      BuildConfig.Split(flags, ' ') == ["", "B_MAGISK=1", "B_POLICY=1", "B_PRELOAD=1", "B_BOOT=1"]
  {
    assert Magisk in t && MagiskPolicy in t && MagiskInit in t && MagiskBoot in t && Busybox in t;
    assert Test !in t && Resetprop !in t;
    DefaultFlags(t);
    var flags := FlagString(FirstPassTable, t);
    assert FirstPass(t) == [NdkBuild(flags), CleanElf];
    assert LateStages(t, stub, true) == [DumpBinHeader(stub), NdkBuild("B_INIT=1"), NdkBuild("B_BB=1")];
  }

  lemma DefaultFlags(t: set<Target>)
    requires Magisk in t && MagiskPolicy in t && MagiskInit in t && MagiskBoot in t
    requires Test !in t && Resetprop !in t
    ensures FlagString(FirstPassTable, t) != ""
    ensures BuildConfig.Split(FlagString(FirstPassTable, t), ' ') == ["", "B_MAGISK=1", "B_POLICY=1", "B_PRELOAD=1", "B_BOOT=1"]
  {
    SelectedDefault(t);
    FirstPassVariablesDistinct();
    FlagStringWords(FirstPassTable, t);
    FlagSelectedEmpty(FirstPassTable, t);
  }
}
