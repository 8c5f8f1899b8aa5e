// Generated C headers of build.py: write_if_diff leaves a file alone when it
// already holds the text, so rebuilding with the same inputs touches nothing;
// dump_flag_header and dump_bin_header write their headers through it.
// The file system is a map from path to content.

module ContentCache {
  import opened Common
  import PayloadHeader
  import BuildPlan
  import TarGuard

  type Write = (string, string)

  /** write_if_diff writes when the file is absent or holds different text. */
  predicate NeedsWrite(files: map<string, string>, w: Write) {
    w.0 !in files || files[w.0] != w.1
  }

  /** The file system after a sequence of writes, applied in order. */
  function ApplyWrites(files: map<string, string>, ws: seq<Write>): map<string, string> {
    if ws == [] then files
    else ApplyWrites(files, ws[..|ws| - 1])[ws[|ws| - 1].0 := ws[|ws| - 1].1]
  }

  /** The paths write_if_diff actually writes, in order, for a sequence of writes. */
  function Written(files: map<string, string>, ws: seq<Write>): seq<string> {
    if ws == [] then []
    else
      var last := ws[|ws| - 1];
      Written(files, ws[..|ws| - 1]) + (if NeedsWrite(ApplyWrites(files, ws[..|ws| - 1]), last) then [last.0] else [])
  }

  predicate DistinctPaths(ws: seq<Write>) {
    forall i, j :: 0 <= i < j < |ws| ==> ws[i].0 != ws[j].0
  }

  /** The headers dump_bin_header produces: the stub, then one per architecture from its preload library. */
  function BinHeaders(gen: string, stub: seq<byte>, preloads: seq<seq<byte>>,
                      xz: seq<byte> -> seq<byte>): (ws: seq<Write>)
    requires |preloads| == |BuildPlan.Archs|
    ensures |ws| == 1 + |BuildPlan.Archs|
  {
    [(TarGuard.Join(gen, HeaderName(0)), PayloadHeader.Dump("manager_xz", xz(stub)))]
    + seq(|BuildPlan.Archs|, i requires 0 <= i < |BuildPlan.Archs| =>
          (TarGuard.Join(gen, HeaderName(i + 1)), PayloadHeader.Dump("preload_xz", xz(preloads[i]))))
  }

  /** The file name of the k-th header: binaries.h for the stub, then `<arch>_binaries.h`. */
  function HeaderName(k: nat): (r: string)
    requires k <= |BuildPlan.Archs|
    ensures |r| > 0 && r[0] != '/'
  {
    if k == 0 then "binaries.h" else BuildPlan.Archs[k - 1] + "_binaries.h"
  }

  class FileStore {
    /** Content of every existing file, by path. */
    var files: map<string, string>
    /** Every path written so far, in order. */
    var writes: seq<string>

    constructor (initial: map<string, string>)
      ensures files == initial && writes == []
    {
      files := initial;
      writes := [];
    }

    /** write_if_diff: afterwards the file holds text; it was written iff it was absent or differed. */
    method WriteIfDiff(name: string, text: string) returns (wrote: bool)
      modifies this
      ensures wrote <==> NeedsWrite(old(files), (name, text))
      ensures files == old(files)[name := text]
      ensures writes == old(writes) + (if wrote then [name] else [])
    {
      wrote := true;
      if name in files {
        wrote := files[name] != text;
      }
      if wrote {
        files := files[name := text];
        writes := writes + [name];
      }
    }

    /** dump_flag_header: flags.h in the generated directory holds the flag header. */
    method DumpFlagHeader(gen: string, version: string, versionCode: int, release: bool)
      modifies this
      ensures files == ApplyWrites(old(files), [(TarGuard.Join(gen, "flags.h"), BuildPlan.FlagHeader(version, versionCode, release))])
      ensures writes == old(writes) + Written(old(files), [(TarGuard.Join(gen, "flags.h"), BuildPlan.FlagHeader(version, versionCode, release))])
    {
      var w := (TarGuard.Join(gen, "flags.h"), BuildPlan.FlagHeader(version, versionCode, release));
      var none: seq<Write> := [];
      assert [w][..0] == none;
      var _ := WriteIfDiff(w.0, w.1);
    }

    /** dump_bin_header, once the stub is known to exist: every header goes through write_if_diff, in order. */
    method DumpBinHeader(gen: string, stub: seq<byte>, preloads: seq<seq<byte>>,
                         xz: seq<byte> -> seq<byte>)
      requires |preloads| == |BuildPlan.Archs|
      modifies this
      ensures files == ApplyWrites(old(files), BinHeaders(gen, stub, preloads, xz))
      ensures writes == old(writes) + Written(old(files), BinHeaders(gen, stub, preloads, xz))
    {
      ghost var ws := BinHeaders(gen, stub, preloads, xz);
      ghost var start := files;
      ghost var before := writes;
      var text := PayloadHeader.BinaryDump("manager_xz", stub, xz);
      var wrote := WriteIfDiff(TarGuard.Join(gen, HeaderName(0)), text);
      WriteStep(start, ws, 0, before, wrote);
      var i := 0;
      while i < |BuildPlan.Archs|
        invariant 0 <= i <= |BuildPlan.Archs|
        invariant files == ApplyWrites(start, ws[..i + 1])
        invariant writes == before + Written(start, ws[..i + 1])
      {
        text := PayloadHeader.BinaryDump("preload_xz", preloads[i], xz);
        BinHeaderAt(gen, stub, preloads, xz, i);
        wrote := WriteIfDiff(TarGuard.Join(gen, HeaderName(i + 1)), text);
        WriteStep(start, ws, i + 1, before, wrote);
        i := i + 1;
      }
      assert ws[..i + 1] == ws;
    }
  }

  // ---- Properties ----

  /** Applying one more write of a sequence extends the file system and the written paths by that write. */
  lemma WriteStep(files: map<string, string>, ws: seq<Write>, n: nat, before: seq<string>, wrote: bool)
    requires n < |ws|
    requires wrote <==> NeedsWrite(ApplyWrites(files, ws[..n]), ws[n])
    ensures ApplyWrites(files, ws[..n + 1]) == ApplyWrites(files, ws[..n])[ws[n].0 := ws[n].1]
    ensures before + Written(files, ws[..n + 1]) ==
            before + Written(files, ws[..n]) + (if wrote then [ws[n].0] else [])
  {
    assert ws[..n + 1][..n] == ws[..n];
  }

  /** The header after the stub's is the i-th architecture's. */
  lemma BinHeaderAt(gen: string, stub: seq<byte>, preloads: seq<seq<byte>>, xz: seq<byte> -> seq<byte>, i: nat)
    requires |preloads| == |BuildPlan.Archs| && i < |BuildPlan.Archs|
    ensures BinHeaders(gen, stub, preloads, xz)[i + 1] ==
            (TarGuard.Join(gen, HeaderName(i + 1)), PayloadHeader.Dump("preload_xz", xz(preloads[i])))
  {
  }

  /** A write that is not needed leaves the file system as it was. */
  lemma SkippedWriteUnchanged(files: map<string, string>, w: Write)
    requires !NeedsWrite(files, w)
    ensures files[w.0 := w.1] == files
  {
  }

  /** A path not among the writes keeps its old content. */
  lemma {:induction false} ApplyWritesUntouched(files: map<string, string>, ws: seq<Write>, k: string)
    requires forall i :: 0 <= i < |ws| ==> ws[i].0 != k
    ensures k in ApplyWrites(files, ws) <==> k in files
    ensures k in files ==> ApplyWrites(files, ws)[k] == files[k]
  {
    if ws != [] {
      ApplyWritesUntouched(files, ws[..|ws| - 1], k);
    }
  }

  /** A written path holds the text of its last write. */
  lemma {:induction false} ApplyWritesLast(files: map<string, string>, ws: seq<Write>, i: nat)
    requires i < |ws|
    requires forall j :: i < j < |ws| ==> ws[j].0 != ws[i].0
    ensures ws[i].0 in ApplyWrites(files, ws) && ApplyWrites(files, ws)[ws[i].0] == ws[i].1
  {
    var n := |ws| - 1;
    if i < n {
      var p := ws[..n];
      assert p[i] == ws[i];
      assert forall j :: i < j < |p| ==> p[j].0 != p[i].0 by {
        forall j | i < j < |p|
          ensures p[j].0 != p[i].0
        {
          assert p[j] == ws[j];
        }
      }
      ApplyWritesLast(files, p, i);
    }
  }

  /**
   * Rebuilding writes nothing: once a sequence of writes to distinct paths
   * has been applied, applying it again finds every file up to date.
   */
  lemma {:induction false} RewriteWritesNothing(files: map<string, string>, ws: seq<Write>)
    requires DistinctPaths(ws)
    ensures Written(ApplyWrites(files, ws), ws) == []
    ensures ApplyWrites(ApplyWrites(files, ws), ws) == ApplyWrites(files, ws)
  {
    RewritePrefix(files, ws, |ws|);
    assert ws[..|ws|] == ws;
  }

  lemma {:induction false} RewritePrefix(files: map<string, string>, ws: seq<Write>, n: nat)
    requires DistinctPaths(ws) && n <= |ws|
    ensures Written(ApplyWrites(files, ws), ws[..n]) == []
    ensures ApplyWrites(ApplyWrites(files, ws), ws[..n]) == ApplyWrites(files, ws)
  {
    var f := ApplyWrites(files, ws);
    if n > 0 {
      RewritePrefix(files, ws, n - 1);
      assert ws[..n][..n - 1] == ws[..n - 1];
      ApplyWritesLast(files, ws, n - 1);
      assert ws[..n][n - 1] == ws[n - 1];
    }
  }

  /** The headers of dump_bin_header go to distinct paths, so a rebuild with the same inputs writes none of them. */
  lemma BinHeadersRebuild(gen: string, stub: seq<byte>, preloads: seq<seq<byte>>,
                          xz: seq<byte> -> seq<byte>, files: map<string, string>)
    requires |preloads| == |BuildPlan.Archs|
    ensures var ws := BinHeaders(gen, stub, preloads, xz);
      DistinctPaths(ws) && Written(ApplyWrites(files, ws), ws) == []
  {
    BinHeadersDistinct(gen, stub, preloads, xz);
    RewriteWritesNothing(files, BinHeaders(gen, stub, preloads, xz));
  }

  /** The headers of dump_bin_header go to pairwise different paths. */
  lemma BinHeadersDistinct(gen: string, stub: seq<byte>, preloads: seq<seq<byte>>, xz: seq<byte> -> seq<byte>)
    requires |preloads| == |BuildPlan.Archs|
    ensures DistinctPaths(BinHeaders(gen, stub, preloads, xz))
  {
    var ws := BinHeaders(gen, stub, preloads, xz);
    forall i, j | 0 <= i < j < |ws|
      ensures ws[i].0 != ws[j].0
    {
      BinHeaderPath(gen, stub, preloads, xz, i);
      BinHeaderPath(gen, stub, preloads, xz, j);
      HeaderNamesDistinct(i, j);
      JoinDistinct(gen, HeaderName(i), HeaderName(j));
    }
  }

  /** The k-th header is written to the k-th header name in the generated directory. */
  lemma BinHeaderPath(gen: string, stub: seq<byte>, preloads: seq<seq<byte>>, xz: seq<byte> -> seq<byte>, k: nat)
    requires |preloads| == |BuildPlan.Archs| && k <= |BuildPlan.Archs|
    ensures BinHeaders(gen, stub, preloads, xz)[k].0 == TarGuard.Join(gen, HeaderName(k))
  {
    if k > 0 {
      BinHeaderAt(gen, stub, preloads, xz, k - 1);
    }
  }

  /** The header file names differ in length. */
  lemma HeaderNamesDistinct(i: nat, j: nat)
    requires i < j <= |BuildPlan.Archs|
    ensures |HeaderName(i)| != |HeaderName(j)|
  {
  }

  /** Two relative names of different lengths join onto the same directory as different paths. */
  lemma JoinDistinct(dir: string, a: string, b: string)
    requires |a| > 0 && a[0] != '/' && |b| > 0 && b[0] != '/' && |a| != |b|
    ensures TarGuard.Join(dir, a) != TarGuard.Join(dir, b)
  {
  }
}
