/** The ROM manager (`src/rom_manager.rs`): from the entries of the base
    directory it builds the table of source ROMs, keyed by CRC-32, and the
    table of patched target ROMs, keyed by file name. A directory entry is
    given as its file name, its kind and the bytes of the file. */
module Roms {
  import opened Io
  import Bps
  import Ips
  import opened Patches

  /** `ROM_EXTENSIONS`: the extensions of source ROM files, in lower case. */
  const RomExtensions: seq<string> := [
    "bin", "rom", "crt",
    "nes", "fds",
    "sfc", "smc",
    "vb",
    "n64", "v64", "z64",
    "gb",
    "gbc",
    "gba", "agb",
    "nds",
    "3ds"]

  /** An entry of `read_dir`: its file name inside the base directory, whether
      it is a directory, and the bytes of the file. */
  datatype Entry = Entry(name: string, isDir: bool, contents: seq<byte>)

  // ---------------------------------------------------------------- paths

  /** The index of the last `.` in `s`. */
  function LastDot(s: string): (r: Option<nat>)
    ensures r.Some? ==> r.value < |s| && s[r.value] == '.' && forall j :: r.value < j < |s| ==> s[j] != '.'
    ensures r.None? ==> forall j :: 0 <= j < |s| ==> s[j] != '.'
  {
    if s == [] then None
    else if s[|s| - 1] == '.' then Some(|s| - 1)
    else LastDot(s[..|s| - 1])
  }

  /** `Path::extension` of a file name: what follows the last `.`, unless
      there is none or the only one starts the name. */
  function Extension(name: string): (r: Option<string>)
    ensures r.Some? ==> |r.value| < |name| && '.' !in r.value
  {
    match LastDot(name)
    case None => None
    case Some(i) => if i == 0 then None else Some(name[i + 1..])
  }

  /** `Path::file_stem`: the name without its extension and that `.`. */
  function Stem(name: string): (r: string)
    ensures Extension(name).None? ==> r == name
    ensures Extension(name).Some? ==> name == r + "." + Extension(name).value && r != ""
  {
    match Extension(name)
    case None => name
    case Some(e) => name[..|name| - |e| - 1]
  }

  /** `PathBuf::set_extension`: the stem, then `.` and `ext` unless `ext` is
      empty. A non-empty extension without a `.` becomes the new name's
      extension, and the stem is kept. */
  function SetExtension(name: string, ext: string): (r: string)
    ensures ext == "" ==> r == Stem(name)
    ensures name != "" && ext != "" && '.' !in ext ==> Extension(r) == Some(ext) && Stem(r) == Stem(name)
  {
    if ext == [] then Stem(name)
    else
      JoinedExtension(Stem(name), ext);
      Stem(name) + "." + ext
  }

  function Lower(c: char): char {
    if 'A' <= c <= 'Z' then (c as int + 32) as char else c
  }

  /** `str::to_ascii_lowercase`. */
  function ToAsciiLowercase(s: string): (r: string)
    ensures |r| == |s| && forall i :: 0 <= i < |s| ==> r[i] == Lower(s[i])
  {
    seq(|s|, i requires 0 <= i < |s| => Lower(s[i]))
  }

  /** `extension_matches`: the extension, in lower case and empty when there
      is none, is one of `extensions`. */
  predicate ExtensionMatches(name: string, extensions: seq<string>): (b: bool)
    ensures Extension(name).None? ==> (b <==> "" in extensions)
    ensures Extension(name).Some? ==> (b <==> ToAsciiLowercase(Extension(name).value) in extensions)
  {
    ToAsciiLowercase(Extension(name).GetOr("")) in extensions
  }

  /** A name without an extension matches no list of non-empty extensions. */
  lemma NoExtensionNoMatch(name: string, extensions: seq<string>)
    requires Extension(name).None? && forall e :: e in extensions ==> e != ""
    ensures !ExtensionMatches(name, extensions)
  {
  }

  /** Matching ignores the case of the extension. */
  lemma ExtensionMatchesIgnoresCase(name: string, extensions: seq<string>)
    requires Extension(name).Some?
    ensures ExtensionMatches(name, extensions) <==>
      exists e :: e in extensions && |e| == |Extension(name).value| &&
        forall i :: 0 <= i < |e| ==> e[i] == Lower(Extension(name).value[i])
  {
    var x := ToAsciiLowercase(Extension(name).value);
    if ExtensionMatches(name, extensions) {
      assert x in extensions && |x| == |Extension(name).value|;
    }
    if exists e :: e in extensions && |e| == |Extension(name).value| &&
        forall i :: 0 <= i < |e| ==> e[i] == Lower(Extension(name).value[i]) {
      var e :| e in extensions && |e| == |Extension(name).value| &&
        forall i :: 0 <= i < |e| ==> e[i] == Lower(Extension(name).value[i]);
      assert e == x;
    }
  }

  /** The last `.` of `a + "." + ext` is the one joined in when `ext` has none. */
  lemma {:induction false} LastDotJoined(a: string, ext: string)
    requires '.' !in ext
    ensures LastDot(a + "." + ext) == Some(|a|)
    decreases |ext|
  {
    var n := a + "." + ext;
    if ext != [] {
      assert n[..|n| - 1] == a + "." + ext[..|ext| - 1];
      assert n[|n| - 1] == ext[|ext| - 1];
      LastDotJoined(a, ext[..|ext| - 1]);
    }
  }

  /** Joining a non-empty stem and a non-empty extension without a `.` gives
      a name with exactly that stem and extension. */
  lemma JoinedExtension(s: string, ext: string)
    ensures s != "" && ext != "" && '.' !in ext ==>
      Extension(s + "." + ext) == Some(ext) && Stem(s + "." + ext) == s
  {
    if s != "" && ext != "" && '.' !in ext {
      var n := s + "." + ext;
      LastDotJoined(s, ext);
      assert n[|s| + 1..] == ext;
      assert n[..|n| - |ext| - 1] == s;
    }
  }

  /** The name of the target ROM of a patch file: the patch's name with the
      extension of its source ROM, as the source ROM spells it. */
  function TargetName(patchName: string, sourceName: string): (r: string)
    ensures Extension(sourceName).GetOr("") == "" ==> r == Stem(patchName)
    ensures patchName != "" && Extension(sourceName).GetOr("") != "" ==>
      Extension(r) == Extension(sourceName) && Stem(r) == Stem(patchName)
  {
    SetExtension(patchName, Extension(sourceName).GetOr(""))
  }

  // ------------------------------------------------------ the refresh rule

  /** The entries that are not directories, in directory order. */
  function Files(entries: seq<Entry>): (r: seq<Entry>)
    ensures forall e :: e in r <==> e in entries && !e.isDir
    decreases |entries|
  {
    if entries == [] then []
    else
      var last := entries[|entries| - 1];
      var init := entries[..|entries| - 1];
      assert entries == init + [last];
      Files(init) + (if last.isDir then [] else [last])
  }

  /** The source table after the first loop over `files`: each file with a
      ROM extension under the CRC-32 of its bytes, a later file replacing an
      earlier one with the same checksum. */
  function Sources(files: seq<Entry>, crc: Checksum): (r: map<u32, Entry>)
    ensures forall k :: k in r ==> crc(r[k].contents) == k && ExtensionMatches(r[k].name, RomExtensions)
    decreases |files|
  {
    if files == [] then map[]
    else
      var m := Sources(files[..|files| - 1], crc);
      var e := files[|files| - 1];
      if ExtensionMatches(e.name, RomExtensions) then m[crc(e.contents) := e] else m
  }

  /** The target table as one of the patch loops leaves it, and the error
      that ended the loop early, if one did. */
  datatype Phase = Phase(targets: map<string, Patch>, error: Option<PatchError>)

  /** The BPS loop over `files`: a patch that fails to parse ends the loop
      with its error; a patch whose source checksum is in the table becomes
      a target named after the patch with the source ROM's extension; other
      patches are skipped. */
  function BpsPhase(files: seq<Entry>, sources: map<u32, Entry>): (r: Phase)
    ensures r.error.Some? ==> r.error.value.BpsFailed?
    ensures forall name :: name in r.targets ==> r.targets[name].BpsRom?
    decreases |files|
  {
    if files == [] then Phase(map[], None)
    else
      var prev := BpsPhase(files[..|files| - 1], sources);
      var e := files[|files| - 1];
      if prev.error.Some? || !ExtensionMatches(e.name, ["bps"]) then prev
      else
        match Bps.Header(e.contents)
        case Err(err) => Phase(prev.targets, Some(BpsFailed(err)))
        case Ok(h) =>
          if h.sourceChecksum in sources then
            var src := sources[h.sourceChecksum];
            Phase(prev.targets[TargetName(e.name, src.name) := BpsRom(h, e.contents, src.contents)], None)
          else prev
  }

  /** The one source ROM of a table with exactly one entry. */
  ghost function Only(sources: map<u32, Entry>): (e: Entry)
    requires |sources| == 1
    ensures e in sources.Values
  {
    var k :| k in sources; sources[k]
  }

  /** The IPS loop over `files`, starting from the targets `start` the BPS
      loop left: with more than one source ROM every IPS file is skipped;
      otherwise each is scanned against the one source ROM and becomes a
      target, and a scan that fails ends the loop with its error. */
  ghost function IpsPhase(files: seq<Entry>, sources: map<u32, Entry>, start: map<string, Patch>): (r: Phase)
    requires |sources| >= 1
    ensures start.Keys <= r.targets.Keys
    ensures r.error.Some? ==> r.error.value.IpsFailed? && |sources| == 1
    decreases |files|
  {
    if files == [] then Phase(start, None)
    else
      var prev := IpsPhase(files[..|files| - 1], sources, start);
      var e := files[|files| - 1];
      if prev.error.Some? || !ExtensionMatches(e.name, ["ips"]) || |sources| > 1 then prev
      else
        var src := Only(sources);
        match Ips.Scan(e.contents, |src.contents|)
        case Err(err) => Phase(prev.targets, Some(IpsFailed(err)))
        case Ok(q) => Phase(prev.targets[TargetName(e.name, src.name) := IpsRom(q, e.contents, src.contents)], None)
  }

  /** Both tables after `refresh`, and its error. */
  datatype Outcome = Outcome(sources: map<u32, Entry>, targets: map<string, Patch>, error: Option<PatchError>)

  /** `refresh` over the directory `entries`: the tables start empty, the
      sources are collected, nothing else happens when there are none, then
      the BPS loop and the IPS loop add targets until one of them fails. */
  ghost function Refreshed(entries: seq<Entry>, crc: Checksum): (r: Outcome)
    ensures r.sources == Sources(Files(entries), crc)
    ensures r.sources == map[] ==> r.targets == map[] && r.error.None?
    ensures r.error.Some? && r.error.value.IpsFailed? ==> |r.sources| == 1
  {
    var files := Files(entries);
    var sources := Sources(files, crc);
    if |sources| == 0 then Outcome(sources, map[], None)
    else
      var bps := BpsPhase(files, sources);
      if bps.error.Some? then Outcome(sources, bps.targets, bps.error)
      else
        var ips := IpsPhase(files, sources, bps.targets);
        Outcome(sources, ips.targets, ips.error)
  }

  // ------------------------------------------------------------ properties

  /** Every entry of the source table is a ROM file of the directory stored
      under its own CRC-32. */
  lemma {:induction false} SourcesSound(files: seq<Entry>, crc: Checksum)
    ensures forall k :: k in Sources(files, crc) ==>
      var e := Sources(files, crc)[k];
      e in files && ExtensionMatches(e.name, RomExtensions) && crc(e.contents) == k
    decreases |files|
  {
    if files != [] {
      var init := files[..|files| - 1];
      SourcesSound(init, crc);
      forall k | k in Sources(files, crc)
        ensures Sources(files, crc)[k] in files
      {
        if Sources(files, crc)[k] != files[|files| - 1] {
          assert Sources(files, crc)[k] in init;
        }
      }
    }
  }

  /** Every ROM file of the directory is in the table under its CRC-32, and
      a key holds the last ROM file with that checksum. */
  lemma {:induction false} SourcesComplete(files: seq<Entry>, crc: Checksum, i: nat)
    requires i < |files| && ExtensionMatches(files[i].name, RomExtensions)
    ensures crc(files[i].contents) in Sources(files, crc)
    ensures (forall j :: i < j < |files| && ExtensionMatches(files[j].name, RomExtensions) ==>
        crc(files[j].contents) != crc(files[i].contents)) ==>
      Sources(files, crc)[crc(files[i].contents)] == files[i]
    decreases |files|
  {
    var init := files[..|files| - 1];
    var last := files[|files| - 1];
    var key := crc(files[i].contents);
    var m := Sources(init, crc);
    var matches := ExtensionMatches(last.name, RomExtensions);
    assert Sources(files, crc) == if matches then m[crc(last.contents) := last] else m;
    if i < |files| - 1 {
      assert files[i] == init[i];
      SourcesComplete(init, crc, i);
      assert key in m;
      if matches && crc(last.contents) != key {
        assert Sources(files, crc)[key] == m[key];
      }
    }
  }

  /** The target `name` ↦ `p` comes from the `.bps` file `e`: its header
      parses, its source checksum is a key of the source table, the target is
      named after the patch with the source's extension and pairs the patch
      with that source ROM. */
  predicate BpsFileTarget(e: Entry, sources: map<u32, Entry>, name: string, p: Patch) {
    ExtensionMatches(e.name, ["bps"]) && Bps.Header(e.contents).Ok? &&
      var h := Bps.Header(e.contents).value;
      && h.sourceChecksum in sources
      && name == TargetName(e.name, sources[h.sourceChecksum].name)
      && p == BpsRom(h, e.contents, sources[h.sourceChecksum].contents)
  }

  predicate BpsTargetOf(files: seq<Entry>, sources: map<u32, Entry>, name: string, p: Patch) {
    exists e :: e in files && BpsFileTarget(e, sources, name, p)
  }

  /** The BPS loop exposes a patch only when the source table holds its
      source checksum. */
  lemma {:induction false} BpsPhaseSound(files: seq<Entry>, sources: map<u32, Entry>)
    ensures forall name :: name in BpsPhase(files, sources).targets ==>
      BpsTargetOf(files, sources, name, BpsPhase(files, sources).targets[name])
    decreases |files|
  {
    if files != [] {
      var init := files[..|files| - 1];
      BpsPhaseSound(init, sources);
      forall name | name in BpsPhase(files, sources).targets
        ensures BpsTargetOf(files, sources, name, BpsPhase(files, sources).targets[name])
      {
        var p := BpsPhase(files, sources).targets[name];
        if name in BpsPhase(init, sources).targets && p == BpsPhase(init, sources).targets[name] {
          var e :| e in init && BpsFileTarget(e, sources, name, p);
          assert e in files;
        } else {
          assert files[|files| - 1] in files && BpsFileTarget(files[|files| - 1], sources, name, p);
        }
      }
    }
  }

  /** Once a loop has failed, the rest of the files change nothing. */
  lemma {:induction false} BpsPhaseStops(files: seq<Entry>, sources: map<u32, Entry>, i: nat)
    requires i <= |files| && BpsPhase(files[..i], sources).error.Some?
    ensures BpsPhase(files, sources) == BpsPhase(files[..i], sources)
    decreases |files| - i
  {
    if i < |files| {
      assert files[..i + 1][..i] == files[..i];
      BpsPhaseStops(files, sources, i + 1);
    } else {
      assert files[..i] == files;
    }
  }

  lemma {:induction false} IpsPhaseStops(files: seq<Entry>, sources: map<u32, Entry>, start: map<string, Patch>, i: nat)
    requires |sources| >= 1
    requires i <= |files| && IpsPhase(files[..i], sources, start).error.Some?
    ensures IpsPhase(files, sources, start) == IpsPhase(files[..i], sources, start)
    decreases |files| - i
  {
    if i < |files| {
      assert files[..i + 1][..i] == files[..i];
      IpsPhaseStops(files, sources, start, i + 1);
    } else {
      assert files[..i] == files;
    }
  }

  /** The IPS loop only adds to the targets it starts from, so an IPS target
      replaces a BPS target of the same name. */
  lemma {:induction false} IpsPhaseOverrides(files: seq<Entry>, sources: map<u32, Entry>, start: map<string, Patch>)
    requires |sources| >= 1
    ensures IpsPhase(files, sources, start).targets == start + IpsPhase(files, sources, map[]).targets
    ensures IpsPhase(files, sources, start).error == IpsPhase(files, sources, map[]).error
    decreases |files|
  {
    if files != [] {
      var init := files[..|files| - 1];
      IpsPhaseOverrides(init, sources, start);
      var prev, prev0 := IpsPhase(init, sources, start), IpsPhase(init, sources, map[]);
      var cur, cur0 := IpsPhase(files, sources, start), IpsPhase(files, sources, map[]);
      var e := files[|files| - 1];
      if prev.error.Some? || !ExtensionMatches(e.name, ["ips"]) || |sources| > 1 {
        assert cur == prev && cur0 == prev0;
      } else {
        var src := Only(sources);
        match Ips.Scan(e.contents, |src.contents|)
        case Err(_) =>
          assert cur.targets == prev.targets && cur0.targets == prev0.targets;
        case Ok(q) =>
          var name := TargetName(e.name, src.name);
          var p := IpsRom(q, e.contents, src.contents);
          assert cur.targets == prev.targets[name := p] && cur0.targets == prev0.targets[name := p];
          UpdateAfterUnion(start, prev0.targets, name, p);
      }
    }
  }

  /** Storing under a key after a union is storing it in the right operand. */
  lemma UpdateAfterUnion<K, V>(a: map<K, V>, b: map<K, V>, k: K, v: V)
    ensures (a + b)[k := v] == a + b[k := v]
  {
  }

  /** The IPS targets exist only when there is exactly one source ROM. */
  lemma {:induction false} IpsPhaseNeedsOneSource(files: seq<Entry>, sources: map<u32, Entry>)
    requires |sources| > 1
    ensures IpsPhase(files, sources, map[]) == Phase(map[], None)
    decreases |files|
  {
    if files != [] {
      IpsPhaseNeedsOneSource(files[..|files| - 1], sources);
    }
  }

  /** The target `name` ↦ `p` comes from the `.ips` file `e` scanned
      against the length of the one source ROM, paired with that ROM. */
  predicate IpsFileTarget(e: Entry, source: Entry, name: string, p: Patch) {
    ExtensionMatches(e.name, ["ips"]) &&
      name == TargetName(e.name, source.name) &&
      Ips.Scan(e.contents, |source.contents|).Ok? &&
      p == IpsRom(Ips.Scan(e.contents, |source.contents|).value, e.contents, source.contents)
  }

  predicate IpsTargetOf(files: seq<Entry>, source: Entry, name: string, p: Patch) {
    exists e :: e in files && IpsFileTarget(e, source, name, p)
  }

  lemma {:induction false} IpsPhaseSound(files: seq<Entry>, sources: map<u32, Entry>)
    requires |sources| == 1
    ensures forall name :: name in IpsPhase(files, sources, map[]).targets ==>
      IpsTargetOf(files, Only(sources), name, IpsPhase(files, sources, map[]).targets[name])
    decreases |files|
  {
    if files != [] {
      var init := files[..|files| - 1];
      IpsPhaseSound(init, sources);
      var prev := IpsPhase(init, sources, map[]);
      var e := files[|files| - 1];
      var src := Only(sources);
      assert e in files;
      assert forall x :: x in init ==> x in files;
      if !(prev.error.Some? || !ExtensionMatches(e.name, ["ips"])) {
        match Ips.Scan(e.contents, |src.contents|)
        case Err(_) =>
        case Ok(q) =>
          var name := TargetName(e.name, src.name);
          assert IpsFileTarget(e, src, name, IpsRom(q, e.contents, src.contents));
      }
    }
  }

  /** The name under which the BPS loop exposes the file `e`, when it does:
      a `.bps` file whose header parses and whose source checksum is a key. */
  predicate BpsNames(e: Entry, sources: map<u32, Entry>, name: string) {
    ExtensionMatches(e.name, ["bps"]) && Bps.Header(e.contents).Ok? &&
      var h := Bps.Header(e.contents).value;
      h.sourceChecksum in sources && name == TargetName(e.name, sources[h.sourceChecksum].name)
  }

  /** The BPS loop, when no patch fails to parse, exposes every `.bps` file
      whose header parses and whose source checksum is a key, under the
      patch's name with the source's extension; the entry pairs the patch
      with that source unless a later `.bps` file takes the same name. */
  lemma {:induction false} BpsPhaseComplete(files: seq<Entry>, sources: map<u32, Entry>, i: nat)
    requires i < |files| && BpsPhase(files, sources).error.None?
    requires ExtensionMatches(files[i].name, ["bps"]) && Bps.Header(files[i].contents).Ok?
    requires Bps.Header(files[i].contents).value.sourceChecksum in sources
    ensures
      var h := Bps.Header(files[i].contents).value;
      var src := sources[h.sourceChecksum];
      var name := TargetName(files[i].name, src.name);
      && name in BpsPhase(files, sources).targets
      && ((forall j :: i < j < |files| ==> !BpsNames(files[j], sources, name)) ==>
            BpsPhase(files, sources).targets[name] == BpsRom(h, files[i].contents, src.contents))
    decreases |files|
  {
    var h := Bps.Header(files[i].contents).value;
    var src := sources[h.sourceChecksum];
    var name := TargetName(files[i].name, src.name);
    var init := files[..|files| - 1];
    var last := files[|files| - 1];
    var prev := BpsPhase(init, sources);
    var r := BpsPhase(files, sources);
    assert prev.error.None?;
    if i == |files| - 1 {
      assert r == Phase(prev.targets[name := BpsRom(h, last.contents, src.contents)], None);
    } else {
      assert files[i] == init[i];
      BpsPhaseComplete(init, sources, i);
      if !ExtensionMatches(last.name, ["bps"]) {
        assert r == prev;
      } else {
        var h2 := Bps.Header(last.contents).value;
        if h2.sourceChecksum in sources {
          var src2 := sources[h2.sourceChecksum];
          var name2 := TargetName(last.name, src2.name);
          assert r == Phase(prev.targets[name2 := BpsRom(h2, last.contents, src2.contents)], None);
          if forall j :: i < j < |files| ==> !BpsNames(files[j], sources, name) {
            forall j | i < j < |init| ensures !BpsNames(init[j], sources, name) {
              assert init[j] == files[j];
            }
            assert !BpsNames(last, sources, name);
            assert name2 != name;
          }
        } else {
          assert r == prev;
        }
      }
    }
  }

  /** The name under which the IPS loop exposes the file `e` with the one
      source ROM `src`, when it does: a `.ips` file that scans against it. */
  predicate IpsNames(e: Entry, src: Entry, name: string) {
    ExtensionMatches(e.name, ["ips"]) && Ips.Scan(e.contents, |src.contents|).Ok? &&
      name == TargetName(e.name, src.name)
  }

  /** With exactly one source ROM, the IPS loop, when no scan fails, exposes
      every `.ips` file that scans against that ROM, under the patch's name
      with the source's extension; the entry pairs the patch with that source
      unless a later `.ips` file takes the same name. */
  lemma {:induction false} IpsPhaseComplete(files: seq<Entry>, sources: map<u32, Entry>, start: map<string, Patch>, i: nat)
    requires |sources| == 1
    requires i < |files| && IpsPhase(files, sources, start).error.None?
    requires ExtensionMatches(files[i].name, ["ips"]) && Ips.Scan(files[i].contents, |Only(sources).contents|).Ok?
    ensures
      var src := Only(sources);
      var q := Ips.Scan(files[i].contents, |src.contents|).value;
      var name := TargetName(files[i].name, src.name);
      && name in IpsPhase(files, sources, start).targets
      && ((forall j :: i < j < |files| ==> !IpsNames(files[j], src, name)) ==>
            IpsPhase(files, sources, start).targets[name] == IpsRom(q, files[i].contents, src.contents))
    decreases |files|
  {
    var src := Only(sources);
    var name := TargetName(files[i].name, src.name);
    var init := files[..|files| - 1];
    var last := files[|files| - 1];
    var prev := IpsPhase(init, sources, start);
    var r := IpsPhase(files, sources, start);
    assert prev.error.None?;
    if i == |files| - 1 {
      var q := Ips.Scan(last.contents, |src.contents|).value;
      assert r == Phase(prev.targets[name := IpsRom(q, last.contents, src.contents)], None);
    } else {
      assert files[i] == init[i];
      IpsPhaseComplete(init, sources, start, i);
      if !ExtensionMatches(last.name, ["ips"]) {
        assert r == prev;
      } else {
        var q2 := Ips.Scan(last.contents, |src.contents|).value;
        var name2 := TargetName(last.name, src.name);
        assert r == Phase(prev.targets[name2 := IpsRom(q2, last.contents, src.contents)], None);
        if forall j :: i < j < |files| ==> !IpsNames(files[j], src, name) {
          forall j | i < j < |init| ensures !IpsNames(init[j], src, name) {
            assert init[j] == files[j];
          }
          assert !IpsNames(last, src, name);
          assert name2 != name;
        }
      }
    }
  }

  /** A `refresh` that ends without an error exposes every `.bps` file whose
      source checksum is in the source table and, when that table has
      exactly one ROM, every `.ips` file that scans against it. */
  lemma RefreshedComplete(entries: seq<Entry>, crc: Checksum, i: nat)
    requires i < |Files(entries)| && Refreshed(entries, crc).error.None?
    ensures var o := Refreshed(entries, crc);
      var e := Files(entries)[i];
      && (ExtensionMatches(e.name, ["bps"]) && Bps.Header(e.contents).Ok? &&
          Bps.Header(e.contents).value.sourceChecksum in o.sources ==>
            TargetName(e.name, o.sources[Bps.Header(e.contents).value.sourceChecksum].name) in o.targets)
      && (|o.sources| == 1 && ExtensionMatches(e.name, ["ips"]) &&
          Ips.Scan(e.contents, |Only(o.sources).contents|).Ok? ==>
            TargetName(e.name, Only(o.sources).name) in o.targets)
  {
    var files := Files(entries);
    var sources := Sources(files, crc);
    var e := files[i];
    if |sources| != 0 {
      var bps := BpsPhase(files, sources);
      assert bps.error.None?;
      var ips := IpsPhase(files, sources, bps.targets);
      assert Refreshed(entries, crc).targets == ips.targets;
      if ExtensionMatches(e.name, ["bps"]) && Bps.Header(e.contents).Ok? &&
         Bps.Header(e.contents).value.sourceChecksum in sources {
        BpsPhaseComplete(files, sources, i);
      }
      if |sources| == 1 && ExtensionMatches(e.name, ["ips"]) && Ips.Scan(e.contents, |Only(sources).contents|).Ok? {
        IpsPhaseComplete(files, sources, bps.targets, i);
      }
    }
  }

  /** Without a source ROM, `refresh` exposes no target. */
  lemma NoSourcesNoTargets(entries: seq<Entry>, crc: Checksum)
    requires forall e :: e in entries && !e.isDir ==> !ExtensionMatches(e.name, RomExtensions)
    ensures Refreshed(entries, crc).sources == map[]
    ensures Refreshed(entries, crc).targets == map[]
  {
    SourcesSound(Files(entries), crc);
  }

  /** Every target `refresh` exposes is an IPS target, which needs exactly
      one source ROM, or a BPS target whose source checksum is in the table
      (one that no IPS target of the same name replaced). */
  lemma RefreshedTargets(entries: seq<Entry>, crc: Checksum)
    ensures var o := Refreshed(entries, crc);
      forall name :: name in o.targets ==>
        BpsTargetOf(Files(entries), o.sources, name, o.targets[name]) ||
        (|o.sources| == 1 && IpsTargetOf(Files(entries), Only(o.sources), name, o.targets[name]))
  {
    var files := Files(entries);
    var sources := Sources(files, crc);
    if |sources| != 0 {
      BpsPhaseSound(files, sources);
      var bps := BpsPhase(files, sources);
      if bps.error.None? {
        IpsPhaseOverrides(files, sources, bps.targets);
        var ips := IpsPhase(files, sources, map[]);
        if |sources| == 1 {
          IpsPhaseSound(files, sources);
        } else {
          IpsPhaseNeedsOneSource(files, sources);
        }
        assert Refreshed(entries, crc).targets == bps.targets + ips.targets;
        forall name | name in bps.targets + ips.targets
          ensures BpsTargetOf(files, sources, name, (bps.targets + ips.targets)[name]) ||
            (|sources| == 1 && IpsTargetOf(files, Only(sources), name, (bps.targets + ips.targets)[name]))
        {
          if name !in ips.targets {
            assert (bps.targets + ips.targets)[name] == bps.targets[name];
          }
        }
      }
    }
  }

  // --------------------------------------------------------- the manager

  /** `RomManager`: the two tables (the base directory is implicit in the
      entries passed to `Refresh`). */
  class RomManager {
    /** CRC-32, a foreign function the model does not interpret. */
    const crc: Checksum
    var sourceRoms: map<u32, Entry>
    var targetRoms: map<string, Patch>

    constructor(crc: Checksum)
      ensures this.crc == crc && sourceRoms == map[] && targetRoms == map[]
    {
      this.crc := crc;
      sourceRoms := map[];
      targetRoms := map[];
    }

    /** `refresh`: clear both tables, then the three loops over the files of
        the directory. A patch that fails to parse stops the refresh with its
        error and leaves the tables as far as they got. */
    method Refresh(entries: seq<Entry>) returns (r: Result<(), PatchError>)
      modifies this
      ensures sourceRoms == Refreshed(entries, crc).sources
      ensures targetRoms == Refreshed(entries, crc).targets
      ensures r.Ok? <==> Refreshed(entries, crc).error.None?
      ensures r.Err? ==> Refreshed(entries, crc).error == Some(r.error)
    {
      sourceRoms := map[];
      targetRoms := map[];
      var files := Files(entries);
      CollectSources(files);
      if |sourceRoms| == 0 {
        return Ok(());
      }
      var bps := AddBpsTargets(files);
      if bps.Err? {
        return bps;
      }
      r := AddIpsTargets(files);
    }

    /** The first loop: every ROM file under the CRC-32 of its bytes. */
    method CollectSources(files: seq<Entry>)
      requires sourceRoms == map[]
      modifies this
      ensures sourceRoms == Sources(files, crc) && targetRoms == old(targetRoms)
    {
      for i := 0 to |files|
        invariant sourceRoms == Sources(files[..i], crc) && targetRoms == old(targetRoms)
      {
        assert files[..i + 1][..i] == files[..i];
        var e := files[i];
        if ExtensionMatches(e.name, RomExtensions) {
          sourceRoms := sourceRoms[crc(e.contents) := e];
        }
      }
      assert files[..|files|] == files;
    }

    /** The second loop: the BPS patches whose source ROM is in the table. */
    method AddBpsTargets(files: seq<Entry>) returns (r: Result<(), PatchError>)
      requires targetRoms == map[]
      modifies this
      ensures sourceRoms == old(sourceRoms)
      ensures Phase(targetRoms, if r.Err? then Some(r.error) else None) == BpsPhase(files, sourceRoms)
    {
      for i := 0 to |files|
        invariant sourceRoms == old(sourceRoms)
        invariant BpsPhase(files[..i], sourceRoms) == Phase(targetRoms, None)
      {
        assert files[..i + 1][..i] == files[..i];
        var e := files[i];
        if ExtensionMatches(e.name, ["bps"]) {
          var patch := Bps.New(e.contents);
          if patch.Err? {
            BpsPhaseStops(files, sourceRoms, i + 1);
            return Err(BpsFailed(patch.error));
          }
          var h := patch.value;
          if h.sourceChecksum in sourceRoms {
            var src := sourceRoms[h.sourceChecksum];
            targetRoms := targetRoms[TargetName(e.name, src.name) := BpsRom(h, e.contents, src.contents)];
          }
        }
      }
      assert files[..|files|] == files;
      return Ok(());
    }

    /** The third loop: with a single source ROM, every IPS patch scanned
        against it; with several, every IPS patch skipped. */
    method AddIpsTargets(files: seq<Entry>) returns (r: Result<(), PatchError>)
      requires |sourceRoms| >= 1
      modifies this
      ensures sourceRoms == old(sourceRoms)
      ensures Phase(targetRoms, if r.Err? then Some(r.error) else None) == IpsPhase(files, sourceRoms, old(targetRoms))
    {
      for i := 0 to |files|
        invariant sourceRoms == old(sourceRoms)
        invariant IpsPhase(files[..i], sourceRoms, old(targetRoms)) == Phase(targetRoms, None)
      {
        assert files[..i + 1][..i] == files[..i];
        var e := files[i];
        if ExtensionMatches(e.name, ["ips"]) {
          if |sourceRoms| > 1 {
            // several candidates: the patch is skipped
          } else {
            var k :| k in sourceRoms;
            var src := sourceRoms[k];
            OnlyIsUnique(sourceRoms, k);
            var patch := Ips.New(e.contents, |src.contents|);
            if patch.Err? {
              IpsPhaseStops(files, sourceRoms, old(targetRoms), i + 1);
              return Err(IpsFailed(patch.error));
            }
            targetRoms := targetRoms[TargetName(e.name, src.name) := IpsRom(patch.value, e.contents, src.contents)];
          }
        }
      }
      assert files[..|files|] == files;
      return Ok(());
    }
  }

  /** A table with one entry has one key. */
  lemma OnlyIsUnique(sources: map<u32, Entry>, k: u32)
    requires |sources| == 1 && k in sources
    ensures Only(sources) == sources[k]
  {
    var j :| j in sources && Only(sources) == sources[j];
    if j != k {
      assert {j, k} <= sources.Keys;
      assert |{j, k}| == 2;
      SubsetSize({j, k}, sources.Keys);
    }
  }

  lemma SubsetSize(a: set<u32>, b: set<u32>)
    requires a <= b
    ensures |a| <= |b|
  {
    if a != {} {
      var x :| x in a;
      SubsetSize(a - {x}, b - {x});
    }
  }
}
