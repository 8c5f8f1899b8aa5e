/**
 * Configuration loading of build.py: the `key=value` property-file parser
 * (`parse_props`), the three-layer merge of `load_config`, and the integer
 * conversion of `versionCode` together with its printed form.
 *
 * A property file is given as the sequence of its lines, as Python's
 * `for l in f` yields them (each line may still carry its '\n').
 */
module BuildConfig {
  import opened Common

  // ---------------------------------------------------------------------
  // Stripping and splitting, as Python's str.strip(' \t\r\n') and str.split
  // ---------------------------------------------------------------------

  /** The characters build.py strips from lines, keys and values. */
  predicate IsBlank(c: char) {
    c == ' ' || c == '\t' || c == '\r' || c == '\n'
  }

  /** Neither end is a blank: what a strip leaves behind. */
  predicate IsStripped(s: string) {
    s == [] || (!IsBlank(s[0]) && !IsBlank(s[|s| - 1]))
  }

  function StripLeft(s: string): (r: string)
    ensures |r| <= |s| && r == s[|s| - |r|..]
    ensures r == [] || !IsBlank(r[0])
    ensures forall i :: 0 <= i < |s| - |r| ==> IsBlank(s[i])
  {
    if s != [] && IsBlank(s[0]) then
      var r := StripLeft(s[1..]);
      assert forall i :: 1 <= i < |s| - |r| ==> s[i] == s[1..][i - 1];
      r
    else s
  }

  function StripRight(s: string): (r: string)
    ensures |r| <= |s| && r == s[..|r|]
    ensures r == [] || !IsBlank(r[|r| - 1])
    ensures forall i :: |r| <= i < |s| ==> IsBlank(s[i])
  {
    if s != [] && IsBlank(s[|s| - 1]) then StripRight(s[..|s| - 1]) else s
  }

  /** How many blanks `s.strip` removes from the front of s. */
  function LeadingBlanks(s: string): nat {
    |s| - |StripLeft(s)|
  }

  /**
   * `s.strip(' \t\r\n')`: the result is the slice of s that is left when
   * only blanks are removed from both ends, and it has no blank end.
   */
  function Strip(s: string): (r: string)
    ensures IsStripped(r)
    ensures LeadingBlanks(s) + |r| <= |s|
    ensures r == s[LeadingBlanks(s)..LeadingBlanks(s) + |r|]
    ensures forall i :: 0 <= i < LeadingBlanks(s) ==> IsBlank(s[i])
    ensures forall i :: LeadingBlanks(s) + |r| <= i < |s| ==> IsBlank(s[i])
  {
    var l := StripLeft(s);
    var r := StripRight(l);
    StripRightOfSuffix(s, l, r);
    r
  }

  /** Stripping the right end of a suffix l of s leaves a slice of s followed by blanks only. */
  lemma StripRightOfSuffix(s: string, l: string, r: string)
    requires |l| <= |s| && l == s[|s| - |l|..]
    requires |r| <= |l| && r == l[..|r|]
    requires forall i :: |r| <= i < |l| ==> IsBlank(l[i])
    ensures r == s[|s| - |l|..|s| - |l| + |r|]
    ensures forall i :: |s| - |l| + |r| <= i < |s| ==> IsBlank(s[i])
  {
    forall i | |s| - |l| + |r| <= i < |s|
      ensures IsBlank(s[i])
    {
      assert s[i] == l[i - (|s| - |l|)];
    }
  }

  /** Stripping a string that has no blank end changes nothing. */
  lemma StripStripped(s: string)
    requires IsStripped(s)
    ensures Strip(s) == s
  {
  }

  /** Number of occurrences of c in s. */
  function Count(s: string, c: char): nat {
    if s == [] then 0 else (if s[0] == c then 1 else 0) + Count(s[1..], c)
  }

  lemma {:induction false} CountAbsent(s: string, c: char)
    requires c !in s
    ensures Count(s, c) == 0
  {
    if s != [] {
      CountAbsent(s[1..], c);
    }
  }

  lemma {:induction false} CountAppend(a: string, b: string, c: char)
    ensures Count(a + b, c) == Count(a, c) + Count(b, c)
  {
    if a == [] {
      assert a + b == b;
    } else {
      assert (a + b)[1..] == a[1..] + b;
      CountAppend(a[1..], b, c);
    }
  }

  /**
   * Python's `s.split(sep)` for a one-character separator: one part more
   * than there are separators, and no part contains the separator.
   */
  function Split(s: string, sep: char): (parts: seq<string>)
    ensures |parts| == Count(s, sep) + 1
    ensures forall i :: 0 <= i < |parts| ==> sep !in parts[i]
    decreases |s|
  {
    if s == [] then [""]
    else
      var rest := Split(s[1..], sep);
      if s[0] == sep then [""] + rest else [[s[0]] + rest[0]] + rest[1..]
  }

  /** Python's `sep.join(parts)`. */
  function JoinWith(parts: seq<string>, sep: char): string {
    if parts == [] then ""
    else if |parts| == 1 then parts[0]
    else parts[0] + [sep] + JoinWith(parts[1..], sep)
  }

  /** Splitting loses nothing: joining the parts back gives the string. */
  lemma {:induction false} SplitJoin(s: string, sep: char)
    ensures JoinWith(Split(s, sep), sep) == s
  {
    if s != [] {
      var rest := Split(s[1..], sep);
      SplitJoin(s[1..], sep);
      if s[0] == sep {
        assert Split(s, sep) == [""] + rest;
      } else {
        var parts := [[s[0]] + rest[0]] + rest[1..];
        if |rest| == 1 {
          assert JoinWith(parts, sep) == [s[0]] + rest[0];
        } else {
          assert parts[1..] == rest[1..];
          assert JoinWith(parts, sep) == [s[0]] + rest[0] + [sep] + JoinWith(rest[1..], sep);
        }
      }
    }
  }

  /** A string without the separator splits into itself alone. */
  lemma {:induction false} SplitAbsent(s: string, sep: char)
    requires sep !in s
    ensures Split(s, sep) == [s]
  {
    if s != [] {
      assert sep !in s[1..];
      SplitAbsent(s[1..], sep);
      assert [s[0]] + s[1..] == s;
    }
  }

  /** Splitting `a + [sep] + b` where `a` has no separator. */
  lemma {:induction false} SplitAt(a: string, sep: char, b: string)
    requires sep !in a
    ensures Split(a + [sep] + b, sep) == [a] + Split(b, sep)
  {
    if a == [] {
      assert (a + [sep] + b)[1..] == b;
    } else {
      var s := a + [sep] + b;
      assert s[0] == a[0] && s[1..] == a[1..] + [sep] + b;
      assert sep !in a[1..];
      SplitAt(a[1..], sep, b);
      var rest := Split(s[1..], sep);
      assert rest == [a[1..]] + Split(b, sep);
      assert [a[0]] + a[1..] == a;
      assert Split(s, sep) == [[s[0]] + rest[0]] + rest[1..];
    }
  }

  /** Joining loses nothing either: parts without the separator split back out of their join. */
  lemma {:induction false} JoinSplit(parts: seq<string>, sep: char)
    requires parts != [] && forall i :: 0 <= i < |parts| ==> sep !in parts[i]
    ensures Split(JoinWith(parts, sep), sep) == parts
  {
    if |parts| == 1 {
      SplitAbsent(parts[0], sep);
    } else {
      JoinSplit(parts[1..], sep);
      SplitAt(parts[0], sep, JoinWith(parts[1..], sep));
      assert [parts[0]] + parts[1..] == parts;
    }
  }

  /** Joining two non-empty lists of parts is joining each and putting a separator between. */
  lemma {:induction false} JoinWithAppend(a: seq<string>, b: seq<string>, sep: char)
    requires a != [] && b != []
    ensures JoinWith(a + b, sep) == JoinWith(a, sep) + [sep] + JoinWith(b, sep)
    decreases |a|
  {
    if |a| == 1 {
      assert (a + b)[1..] == b;
    } else {
      JoinWithAppend(a[1..], b, sep);
      assert (a + b)[1..] == a[1..] + b;
    }
  }

  // ---------------------------------------------------------------------
  // parse_props
  // ---------------------------------------------------------------------

  /**
   * What one line contributes to the property map: nothing for an empty or
   * `#` line, for a line that does not split into exactly two parts on
   * '=', or for an empty value; otherwise the stripped key and value.
   */
  function PropEntry(raw: string): (r: Option<(string, string)>)
    ensures r.Some? ==> IsStripped(r.value.0) && IsStripped(r.value.1)
    ensures r.Some? ==> r.value.1 != [] && '=' !in r.value.0 && '=' !in r.value.1
    ensures r.Some? ==> Count(Strip(raw), '=') == 1
  {
    var line := Strip(raw);
    if |line| == 0 || line[0] == '#' then None
    else
      var prop := Split(line, '=');
      if |prop| != 2 then None
      else
        var value := Strip(prop[1]);
        if |value| == 0 then None else Some((Strip(prop[0]), value))
  }

  /** The line `key=value` written back from a stored entry parses to that entry. */
  lemma PropEntryRoundTrip(key: string, value: string)
    requires IsStripped(key) && IsStripped(value) && value != []
    requires '=' !in key && '=' !in value
    requires key == [] || key[0] != '#'
    ensures PropEntry(key + "=" + value) == Some((key, value))
  {
    var line := key + "=" + value;
    assert line == key + ['='] + value;
    assert line[|line| - 1] == value[|value| - 1];
    assert key == [] ==> line[0] == '=';
    assert key != [] ==> line[0] == key[0];
    StripStripped(line);
    SplitAt(key, '=', value);
    SplitAbsent(value, '=');
    assert Split(line, '=') == [key, value];
    StripStripped(key);
    StripStripped(value);
  }

  /** Blank lines, `#` lines and lines without exactly one '=' contribute nothing. */
  lemma SkippedLines(raw: string)
    ensures Strip(raw) == [] || Strip(raw)[0] == '#' ==> PropEntry(raw).None?
    ensures Count(Strip(raw), '=') != 1 ==> PropEntry(raw).None?
    ensures '=' !in raw ==> PropEntry(raw).None?
  {
    if '=' !in raw {
      assert '=' !in Strip(raw) by {
        assert forall i :: 0 <= i < |Strip(raw)| ==> Strip(raw)[i] == raw[LeadingBlanks(raw) + i];
      }
      CountAbsent(Strip(raw), '=');
    }
  }

  /** The line defines key k. */
  predicate Defines(line: string, k: string) {
    PropEntry(line).Some? && PropEntry(line).value.0 == k
  }

  /** The entries of a sequence of lines, one per line. */
  function Entries(lines: seq<string>): (es: seq<Option<(string, string)>>)
    ensures |es| == |lines| && forall i :: 0 <= i < |lines| ==> es[i] == PropEntry(lines[i])
  {
    seq(|lines|, i requires 0 <= i < |lines| => PropEntry(lines[i]))
  }

  /** A dictionary filled from entries in order, each new entry overwriting its key. */
  function Collect<K(==), V>(es: seq<Option<(K, V)>>): map<K, V> {
    if es == [] then map[]
    else
      var m := Collect(es[..|es| - 1]);
      var e := es[|es| - 1];
      if e.Some? then m[e.value.0 := e.value.1] else m
  }

  /** The dictionary that parse_props returns for these lines. */
  function PropsOf(lines: seq<string>): map<string, string> {
    Collect(Entries(lines))
  }

  /** One more entry: its key, if any, now maps to its value. */
  lemma CollectStep<K, V>(es: seq<Option<(K, V)>>, i: nat, e: Option<(K, V)>)
    requires i < |es| && es[i] == e
    ensures Collect(es[..i + 1]) == if e.Some? then Collect(es[..i])[e.value.0 := e.value.1] else Collect(es[..i])
  {
    assert es[..i + 1][..i] == es[..i];
  }

  predicate EntryFor<K(==), V>(e: Option<(K, V)>, k: K) {
    e.Some? && e.value.0 == k
  }

  lemma {:induction false} CollectKeys<K, V>(es: seq<Option<(K, V)>>, k: K)
    ensures k in Collect(es) <==> exists i :: 0 <= i < |es| && EntryFor(es[i], k)
  {
    if es != [] {
      var n := |es| - 1;
      CollectKeys(es[..n], k);
      assert forall i :: 0 <= i < n ==> es[..n][i] == es[i];
    }
  }

  /** The index of the last entry for k: it carries the value k has in the dictionary. */
  lemma {:induction false} CollectLastWins<K, V>(es: seq<Option<(K, V)>>, k: K) returns (i: nat)
    requires k in Collect(es)
    ensures i < |es| && es[i] == Some((k, Collect(es)[k]))
    ensures forall j :: i < j < |es| ==> !EntryFor(es[j], k)
  {
    var n := |es| - 1;
    if EntryFor(es[n], k) {
      i := n;
    } else {
      i := CollectLastWins(es[..n], k);
      assert es[..n][i] == es[i];
      assert forall j :: i < j < n ==> es[..n][j] == es[j];
    }
  }

  /**
   * A key is present exactly when some line defines it, and its value is
   * the one given by the last line that defines it.
   */
  lemma PropsOfLastWins(lines: seq<string>, k: string)
    ensures k in PropsOf(lines) <==> exists i :: 0 <= i < |lines| && Defines(lines[i], k)
    ensures k in PropsOf(lines) ==>
      exists i :: 0 <= i < |lines| && PropEntry(lines[i]) == Some((k, PropsOf(lines)[k]))
        && forall j :: i < j < |lines| ==> !Defines(lines[j], k)
  {
    var es := Entries(lines);
    CollectKeys(es, k);
    if k in PropsOf(lines) {
      var i := CollectLastWins(es, k);
      assert PropEntry(lines[i]) == Some((k, PropsOf(lines)[k]));
    }
  }

  /** parse_props: fill the dictionary line by line; later lines overwrite. */
  method ParseProps(lines: seq<string>) returns (props: map<string, string>)
    ensures props == PropsOf(lines)
  {
    ghost var es := Entries(lines);
    props := map[];
    for i := 0 to |lines|
      invariant props == Collect(es[..i])
    {
      var entry := PropEntry(lines[i]);
      CollectStep(es, i, entry);
      if entry.Some? {
        props := props[entry.value.0 := entry.value.1];
      }
    }
    assert es[..|lines|] == es;
  }

  // ---------------------------------------------------------------------
  // Integers: Python's int() on the versionCode value and str() back
  // ---------------------------------------------------------------------

  predicate IsDigit(c: char) {
    '0' <= c <= '9'
  }

  predicate AllDigits(s: string) {
    forall i :: 0 <= i < |s| ==> IsDigit(s[i])
  }

  function DigitsValue(s: string): nat
    requires AllDigits(s)
  {
    if s == [] then 0 else 10 * DigitsValue(s[..|s| - 1]) + (s[|s| - 1] as int - '0' as int)
  }

  /** `int(s)` for a stripped string: an optional sign and at least one ASCII digit. */
  function ParseDecimal(s: string): (r: Option<int>)
    ensures r.Some? ==> s != [] && (IsDigit(s[0]) || s[0] == '-' || s[0] == '+')
    ensures s != [] && AllDigits(s) ==> r == Some(DigitsValue(s))
  {
    var signed := s != [] && (s[0] == '-' || s[0] == '+');
    var digits := if signed then s[1..] else s;
    if digits == [] || !AllDigits(digits) then None
    else
      var v: int := DigitsValue(digits);
      if signed && s[0] == '-' then Some(-v) else Some(v)
  }

  function DigitChar(d: nat): char
    requires d < 10
  {
    ('0' as int + d) as char
  }

  /** `str(n)` for a natural number: its decimal digits, most significant first. */
  function ShowNat(n: nat): (r: string)
    ensures r != [] && AllDigits(r)
  {
    if n < 10 then [DigitChar(n)] else ShowNat(n / 10) + [DigitChar(n % 10)]
  }

  /** `str(n)`: the decimal form Python prints for an int. */
  function ShowInt(n: int): (r: string)
    ensures r != []
    ensures forall i :: 0 <= i < |r| ==> IsDigit(r[i]) || (i == 0 && r[i] == '-')
  {
    if n < 0 then "-" + ShowNat(-n) else ShowNat(n)
  }

  lemma {:induction false} ShowNatValue(n: nat)
    ensures DigitsValue(ShowNat(n)) == n
  {
    if n >= 10 {
      ShowNatValue(n / 10);
      var s := ShowNat(n);
      assert s[..|s| - 1] == ShowNat(n / 10);
    }
  }

  /** The printed versionCode reads back as the same integer. */
  lemma ParseShowInt(n: int)
    ensures ParseDecimal(ShowInt(n)) == Some(n)
  {
    if n < 0 {
      ShowNatValue(-n);
      assert ShowInt(n)[1..] == ShowNat(-n);
    } else {
      ShowNatValue(n);
    }
  }

  // ---------------------------------------------------------------------
  // load_config
  // ---------------------------------------------------------------------

  const MagiskPrefix: string := "magisk."

  /** The keys of gradle.properties that start with `magisk.`, with those 7 characters removed. */
  function MagiskProps(gradle: map<string, string>): map<string, string> {
    var keys := set k | k in gradle && MagiskPrefix <= k :: k[|MagiskPrefix|..];
    assert forall k :: k in keys ==> MagiskPrefix + k in gradle by {
      forall k | k in keys ensures MagiskPrefix + k in gradle {
        var g :| g in gradle && MagiskPrefix <= g && k == g[|MagiskPrefix|..];
        assert MagiskPrefix + k == g;
      }
    }
    map k | k in keys :: gradle[MagiskPrefix + k]
  }

  /** Key k is in the `magisk.` layer exactly when `magisk.` + k is in gradle.properties, with its value. */
  lemma MagiskPropsLookup(gradle: map<string, string>, k: string)
    ensures k in MagiskProps(gradle) <==> MagiskPrefix + k in gradle
    ensures k in MagiskProps(gradle) ==> MagiskProps(gradle)[k] == gradle[MagiskPrefix + k]
  {
    var g := MagiskPrefix + k;
    if g in gradle {
      assert MagiskPrefix <= g && g[|MagiskPrefix|..] == k;
    }
    if k in MagiskProps(gradle) {
      var g' :| g' in gradle && MagiskPrefix <= g' && k == g'[|MagiskPrefix|..];
      assert MagiskPrefix + k == g';
    }
  }

  /** The `version`/`outdir` defaults, the config file over them, gradle's `magisk.` keys over both. */
  function MergedConfig(commitHash: string, file: map<string, string>, gradle: map<string, string>): map<string, string> {
    map["version" := commitHash, "outdir" := "out"] + file + MagiskProps(gradle)
  }

  /** Each key takes its value from the highest layer that has it. */
  lemma ConfigPrecedence(commitHash: string, file: map<string, string>, gradle: map<string, string>, k: string)
    ensures var m := MergedConfig(commitHash, file, gradle);
      && (k in m <==> (MagiskPrefix + k in gradle || k in file || k == "version" || k == "outdir"))
      && (MagiskPrefix + k in gradle ==> m[k] == gradle[MagiskPrefix + k])
      && (MagiskPrefix + k !in gradle && k in file ==> m[k] == file[k])
      && (MagiskPrefix + k !in gradle && k !in file && k == "version" ==> m[k] == commitHash)
      && (MagiskPrefix + k !in gradle && k !in file && k == "outdir" ==> m[k] == "out")
  {
    MagiskPropsLookup(gradle, k);
  }

  /** Keys of gradle.properties without the `magisk.` prefix never reach the configuration. */
  lemma OtherGradleKeysIgnored(commitHash: string, file: map<string, string>, gradle: map<string, string>, k: string)
    requires MagiskPrefix + k !in gradle
    ensures k in MergedConfig(commitHash, file, gradle) <==> k in map["version" := commitHash, "outdir" := "out"] + file
  {
    MagiskPropsLookup(gradle, k);
  }

  datatype ConfigError =
    | MissingVersionCode     // config['versionCode'] raises KeyError, which nothing catches
    | VersionCodeNotInteger  // int() raises ValueError: 'Config error: "versionCode" is required to be an integer'

  /** The configuration after load_config: every key as text, and versionCode as an integer. */
  datatype Config = Config(props: map<string, string>, versionCode: int)

  /** Adding one gradle.properties key changes the `magisk.` layer by at most that key. */
  lemma MagiskPropsAdd(gradle: map<string, string>, k: string, v: string)
    ensures MagiskProps(gradle[k := v]) ==
      if MagiskPrefix <= k then MagiskProps(gradle)[k[|MagiskPrefix|..] := v] else MagiskProps(gradle)
  {
    var lhs := MagiskProps(gradle[k := v]);
    var rhs := if MagiskPrefix <= k then MagiskProps(gradle)[k[|MagiskPrefix|..] := v] else MagiskProps(gradle);
    forall x
      ensures x in lhs <==> x in rhs
      ensures x in lhs ==> lhs[x] == rhs[x]
    {
      MagiskPropsAddAt(gradle, k, v, x);
    }
    assert lhs.Keys == rhs.Keys;
  }

  lemma MagiskPropsAddAt(gradle: map<string, string>, k: string, v: string, x: string)
    ensures var lhs := MagiskProps(gradle[k := v]);
      var rhs := if MagiskPrefix <= k then MagiskProps(gradle)[k[|MagiskPrefix|..] := v] else MagiskProps(gradle);
      (x in lhs <==> x in rhs) && (x in lhs ==> lhs[x] == rhs[x])
  {
    MagiskPropsLookup(gradle[k := v], x);
    MagiskPropsLookup(gradle, x);
    if MagiskPrefix <= k && x == k[|MagiskPrefix|..] {
      assert MagiskPrefix + x == k;
    }
    if MagiskPrefix + x == k {
      assert MagiskPrefix <= k && x == k[|MagiskPrefix|..];
    }
  }

  lemma UnionUpdate(a: map<string, string>, b: map<string, string>, k: string, v: string)
    ensures (a + b)[k := v] == a + b[k := v]
  {
  }

  /** One more gradle.properties key on top of the layers below: a `magisk.` key overrides, any other changes nothing. */
  lemma MagiskKeyStep(layered: map<string, string>, done: map<string, string>, k: string, v: string)
    ensures layered + MagiskProps(done[k := v]) ==
      if MagiskPrefix <= k then (layered + MagiskProps(done))[k[|MagiskPrefix|..] := v] else layered + MagiskProps(done)
  {
    MagiskPropsAdd(done, k, v);
    if MagiskPrefix <= k {
      UnionUpdate(layered, MagiskProps(done), k[|MagiskPrefix|..], v);
    }
  }

  /** The loop of load_config over gradle.properties: each `magisk.` key overrides, prefix removed. */
  method ApplyMagiskKeys(layered: map<string, string>, gradle: map<string, string>) returns (config: map<string, string>)
    ensures config == layered + MagiskProps(gradle)
  {
    config := layered;
    var todo := gradle.Keys;
    ghost var done: map<string, string> := map[];
    while todo != {}
      invariant todo <= gradle.Keys
      invariant done.Keys == gradle.Keys - todo
      invariant forall g :: g in done ==> done[g] == gradle[g]
      invariant config == layered + MagiskProps(done)
      decreases todo
    {
      var k :| k in todo;
      MagiskKeyStep(layered, done, k, gradle[k]);
      KeysStep(done, gradle, todo, k);
      if MagiskPrefix <= k {
        config := config[k[|MagiskPrefix|..] := gradle[k]];
      }
      done := done[k := gradle[k]];
      todo := todo - {k};
    }
    assert done == gradle;
  }

  lemma KeysStep(done: map<string, string>, gradle: map<string, string>, todo: set<string>, k: string)
    requires done.Keys == gradle.Keys - todo && k in todo && todo <= gradle.Keys
    ensures done[k := gradle[k]].Keys == gradle.Keys - (todo - {k})
  {
  }

  /**
   * load_config: `commitHash` is what `git rev-parse --short=8 HEAD` printed,
   * `configFile` the lines of the config file if it exists, `gradleFile`
   * the lines of gradle.properties.
   */
  method LoadConfig(commitHash: string, configFile: Option<seq<string>>, gradleFile: seq<string>)
    returns (r: Result<Config, ConfigError>)
    ensures var file := if configFile.Some? then PropsOf(configFile.value) else map[];
      var merged := MergedConfig(commitHash, file, PropsOf(gradleFile));
      && ("versionCode" !in merged ==> r == Err(MissingVersionCode))
      && ("versionCode" in merged && ParseDecimal(merged["versionCode"]).None? ==> r == Err(VersionCodeNotInteger))
      && ("versionCode" in merged && ParseDecimal(merged["versionCode"]).Some? ==>
            r == Ok(Config(merged, ParseDecimal(merged["versionCode"]).value)))
  {
    var config := map["version" := commitHash, "outdir" := "out"];
    ghost var file: map<string, string> := map[];
    if configFile.Some? {
      var fileProps := ParseProps(configFile.value);
      config := config + fileProps;
      file := fileProps;
    } else {
      assert config == config + file;
    }
    var gradle := ParseProps(gradleFile);
    config := ApplyMagiskKeys(config, gradle);
    assert config == MergedConfig(commitHash, file, gradle);
    if "versionCode" !in config {
      return Err(MissingVersionCode);
    }
    var code := ParseDecimal(config["versionCode"]);
    if code.None? {
      return Err(VersionCodeNotInteger);
    }
    r := Ok(Config(config, code.value));
  }
}
