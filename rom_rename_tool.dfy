/** `rom_rename_tool.py`: the tool that picks each file's reference table
    from its extension through `EXT_TO_CSV`, with a preview, a rename and a
    playlist (LPL) conversion. Its `load_mapping`, `FileNameCleaner`,
    `SmartMatcher` and the guard that starts a task are those of
    `core.py` and `gui.py` (`Mapper`, `Cleaner`, `Matcher`, `Gui`); what
    differs is the table lookup and the order of the tests in the loops. */
module RomRenameTool {
  import opened Wrappers
  import opened Seqs
  import opened Text
  import opened Paths
  import opened Cleaner
  import opened Matcher
  import opened Mapper
  import opened UniqueName
  import opened Relabel
  import opened Batch
  import opened Gui

  /** A key of `EXT_TO_CSV`: one extension, or a tuple of extensions that
      share a table. */
  datatype ExtKey = OneExt(ext: string) | ExtTuple(exts: seq<string>)

  /** The extensions a key stands for, in order. */
  function KeyExtensions(k: ExtKey): (r: seq<string>)
    ensures k.OneExt? ==> r == [k.ext]
    ensures k.ExtTuple? ==> r == k.exts
  {
    match k
    case OneExt(e) => [e]
    case ExtTuple(es) => es
  }

  /** The entries of `EXT_TO_CSV`, one constant each. */
  const GameBoyAdvanceKey: (ExtKey, string) := (OneExt(".gba"), "Nintendo - Game Boy Advance.csv")
  const GameBoyColorKey: (ExtKey, string) := (OneExt(".gbc"), "Nintendo - Game Boy Color.csv")
  const GameBoyKey: (ExtKey, string) := (OneExt(".gb"), "Nintendo - Game Boy.csv")
  const Nintendo3DSKey: (ExtKey, string) := (ExtTuple([".3ds", ".cia"]), "Nintendo - New Nintendo 3DS.csv")
  const NintendoDSKey: (ExtKey, string) := (OneExt(".nds"), "Nintendo - Nintendo DS.csv")
  const Nintendo64Key: (ExtKey, string) := (ExtTuple([".n64", ".z64", ".v64"]), "Nintendo - Nintendo 64.csv")
  const NESKey: (ExtKey, string) := (OneExt(".nes"), "Nintendo - Nintendo Entertainment System.csv")
  const SuperNintendoKey: (ExtKey, string) := (ExtTuple([".sfc", ".smc"]), "Nintendo - Super Nintendo Entertainment System.csv")
  const WiiUKey: (ExtKey, string) := (ExtTuple([".wud", ".wux"]), "Nintendo - Wii U.csv")
  const WiiKey: (ExtKey, string) := (ExtTuple([".wbfs", ".iso"]), "Nintendo - Wii.csv")
  const PlayStationPortableKey: (ExtKey, string) := (OneExt(".cso"), "Sony - PlayStation Portable.csv")
  const PlayStationKey: (ExtKey, string) := (ExtTuple([".bin", ".cue"]), "Sony - PlayStation.csv")

  /** `EXT_TO_CSV`, in dict order. */
  const ExtToCsv: seq<(ExtKey, string)> := [
    GameBoyAdvanceKey, GameBoyColorKey, GameBoyKey, Nintendo3DSKey,
    NintendoDSKey, Nintendo64Key, NESKey, SuperNintendoKey,
    WiiUKey, WiiKey, PlayStationPortableKey, PlayStationKey
  ]

  /** The assignments `ext_map[ext.lower()] = csv_name` made for one key. */
  function KeyAssignments(entry: (ExtKey, string)): (r: seq<(string, string)>)
    ensures |r| == |KeyExtensions(entry.0)|
    ensures forall j :: 0 <= j < |r| ==> r[j] == (Lower(KeyExtensions(entry.0)[j]), entry.1)
  {
    var exts := KeyExtensions(entry.0);
    seq(|exts|, j requires 0 <= j < |exts| => (Lower(exts[j]), entry.1))
  }

  /** All the assignments `_build_ext_map` makes, in order. */
  function Assignments(table: seq<(ExtKey, string)>): seq<(string, string)> {
    if table == [] then []
    else Assignments(table[..|table| - 1]) + KeyAssignments(table[|table| - 1])
  }

  /** The dict after the assignments, made one after the other. */
  function Assign(pairs: seq<(string, string)>): map<string, string> {
    if pairs == [] then map[]
    else Assign(pairs[..|pairs| - 1])[pairs[|pairs| - 1].0 := pairs[|pairs| - 1].1]
  }

  /** One more assignment updates one key. */
  lemma AssignSnoc(pairs: seq<(string, string)>, p: (string, string))
    ensures Assign(pairs + [p]) == Assign(pairs)[p.0 := p.1]
  {
    assert (pairs + [p])[..|pairs|] == pairs;
  }

  /** One more of a run of assignments updates one key. */
  lemma AssignPrefixStep(before: seq<(string, string)>, added: seq<(string, string)>, j: nat)
    requires j < |added|
    ensures Assign(before + added[..j + 1]) == Assign(before + added[..j])[added[j].0 := added[j].1]
  {
    assert before + added[..j + 1] == before + added[..j] + [added[j]];
    AssignSnoc(before + added[..j], added[j]);
  }

  /** `self.ext_map`, as `_build_ext_map` leaves it. */
  function ExtMap(): map<string, string> {
    Assign(Assignments(ExtToCsv))
  }

  /** The dict holds exactly the assigned keys. */
  lemma {:induction false} AssignKeys(pairs: seq<(string, string)>, k: string)
    ensures k in Assign(pairs) <==> exists i :: 0 <= i < |pairs| && pairs[i].0 == k
  {
    if pairs != [] {
      var front := pairs[..|pairs| - 1];
      var last := pairs[|pairs| - 1];
      AssignKeys(front, k);
      if exists i :: 0 <= i < |front| && front[i].0 == k {
        var i :| 0 <= i < |front| && front[i].0 == k;
        assert pairs[i].0 == k;
      }
      if exists i :: 0 <= i < |pairs| && pairs[i].0 == k {
        var i :| 0 <= i < |pairs| && pairs[i].0 == k;
        if i < |front| {
          assert front[i].0 == k;
        }
      }
    }
  }

  /** Each key of the dict holds the value of its last assignment. */
  lemma {:induction false} AssignLastWins(pairs: seq<(string, string)>, k: string)
    requires k in Assign(pairs)
    ensures exists i :: 0 <= i < |pairs| && pairs[i] == (k, Assign(pairs)[k])
                     && forall j :: i < j < |pairs| ==> pairs[j].0 != k
  {
    var front := pairs[..|pairs| - 1];
    var last := pairs[|pairs| - 1];
    if last.0 == k {
      assert pairs[|pairs| - 1] == (k, Assign(pairs)[k]);
    } else {
      assert Assign(pairs) == Assign(front)[last.0 := last.1];
      AssignLastWins(front, k);
      var i :| 0 <= i < |front| && front[i] == (k, Assign(front)[k]) && forall j :: i < j < |front| ==> front[j].0 != k;
      assert pairs[i] == front[i] == (k, Assign(pairs)[k]);
      forall j | i < j < |pairs|
        ensures pairs[j].0 != k
      {
        if j < |front| {
          assert pairs[j] == front[j];
        }
      }
    }
  }

  /** An assignment that no later one overrides decides its key. */
  lemma AssignLast(pairs: seq<(string, string)>, i: nat)
    requires i < |pairs|
    requires forall j :: i < j < |pairs| ==> pairs[j].0 != pairs[i].0
    ensures pairs[i].0 in Assign(pairs) && Assign(pairs)[pairs[i].0] == pairs[i].1
  {
    var k := pairs[i].0;
    AssignKeys(pairs, k);
    AssignLastWins(pairs, k);
    var i' :| 0 <= i' < |pairs| && pairs[i'] == (k, Assign(pairs)[k]) && forall j :: i' < j < |pairs| ==> pairs[j].0 != k;
    assert i' == i;
  }

  /** The assignments of a table are those of all its keys but the last,
      then those of the last. */
  lemma AssignmentsSnoc(table: seq<(ExtKey, string)>, i: nat)
    requires i < |table|
    ensures Assignments(table[..i + 1]) == Assignments(table[..i]) + KeyAssignments(table[i])
  {
    assert table[..i + 1][..i] == table[..i];
  }

  /** Every extension of every key, lower-cased, gets an entry, unless a
      later assignment gives that lower-cased extension another table;
      with no such clash it maps to its key's table. */
  lemma {:induction false} EveryExtensionIsAssigned(table: seq<(ExtKey, string)>, i: nat, j: nat)
    requires i < |table| && j < |KeyExtensions(table[i].0)|
    ensures Lower(KeyExtensions(table[i].0)[j]) in Assign(Assignments(table))
    ensures (forall p :: 0 <= p < |Assignments(table)| ==> Assignments(table)[p].0 == Lower(KeyExtensions(table[i].0)[j]) ==> Assignments(table)[p].1 == table[i].1) ==>
              Assign(Assignments(table))[Lower(KeyExtensions(table[i].0)[j])] == table[i].1
  {
    var e := Lower(KeyExtensions(table[i].0)[j]);
    var pairs := Assignments(table);
    var before := Assignments(table[..i]);
    AssignmentsSnoc(table, i);
    AssignmentsPrefix(table, i + 1);
    var p := |before| + j;
    assert Assignments(table[..i + 1])[p] == (e, table[i].1);
    assert pairs[p] == (e, table[i].1);
    AssignKeys(pairs, e);
    AssignLastWins(pairs, e);
    var q :| 0 <= q < |pairs| && pairs[q] == (e, Assign(pairs)[e]) && forall r :: q < r < |pairs| ==> pairs[r].0 != e;
    assert pairs[q].0 == e;
  }

  /** The assignments of a prefix of the table come first. */
  lemma {:induction false} AssignmentsPrefix(table: seq<(ExtKey, string)>, n: nat)
    requires n <= |table|
    ensures |Assignments(table[..n])| <= |Assignments(table)|
    ensures forall p :: 0 <= p < |Assignments(table[..n])| ==> Assignments(table)[p] == Assignments(table[..n])[p]
    decreases |table| - n
  {
    if n == |table| {
      assert table[..n] == table;
    } else {
      AssignmentsPrefix(table, n + 1);
      AssignmentsSnoc(table, n);
    }
  }

  /** Assignments to other keys leave a key as it was. */
  lemma {:induction false} AssignAppendUnrelated(a: seq<(string, string)>, b: seq<(string, string)>, k: string)
    requires forall j :: 0 <= j < |b| ==> b[j].0 != k
    ensures (k in Assign(a + b)) == (k in Assign(a))
    ensures k in Assign(a) ==> Assign(a + b)[k] == Assign(a)[k]
    decreases |b|
  {
    if b != [] {
      var b' := b[..|b| - 1];
      AssignAppendUnrelated(a, b', k);
      assert a + b == (a + b') + [b[|b| - 1]];
      AssignSnoc(a + b', b[|b| - 1]);
    } else {
      assert a + b == a;
    }
  }

  /** Two assignments to different keys both hold afterwards. */
  lemma PairAssigned(front: seq<(string, string)>, w: seq<(string, string)>)
    requires |w| == 2 && w[0].0 != w[1].0
    ensures w[0].0 in Assign(front + w) && Assign(front + w)[w[0].0] == w[0].1
    ensures w[1].0 in Assign(front + w) && Assign(front + w)[w[1].0] == w[1].1
  {
    var p, q := w[0], w[1];
    assert front + w == front + [p] + [q];
    AssignSnoc(front, p);
    AssignSnoc(front + [p], q);
  }

  /** The construction ends with the keys after the Wii one: PlayStation
      Portable's and PlayStation's. */
  lemma ExtMapTail()
    ensures Assignments(ExtToCsv) ==
      Assignments(ExtToCsv[..10]) + KeyAssignments(PlayStationPortableKey) + KeyAssignments(PlayStationKey)
  {
    AssignmentsSnoc(ExtToCsv, 10);
    AssignmentsSnoc(ExtToCsv, 11);
    assert ExtToCsv[..12] == ExtToCsv;
  }

  /** Once the Wii key is assigned, both its extensions map to its table. */
  lemma WiiKeyAssigned()
    ensures ".wbfs" in Assign(Assignments(ExtToCsv[..10])) && Assign(Assignments(ExtToCsv[..10]))[".wbfs"] == WiiKey.1
    ensures ".iso" in Assign(Assignments(ExtToCsv[..10])) && Assign(Assignments(ExtToCsv[..10]))[".iso"] == WiiKey.1
  {
    var front := Assignments(ExtToCsv[..9]);
    var w := KeyAssignments(WiiKey);
    AssignmentsSnoc(ExtToCsv, 9);
    WiiAssignments();
    TailExtensionsDiffer();
    PairAssigned(front, w);
  }

  lemma WiiAssignments()
    ensures |KeyAssignments(WiiKey)| == 2
    ensures KeyAssignments(WiiKey)[0] == (".wbfs", WiiKey.1) && KeyAssignments(WiiKey)[1] == (".iso", WiiKey.1)
  {
    LowerOfLowerCase(".wbfs");
    LowerOfLowerCase(".iso");
  }

  lemma PlayStationPortableAssignments()
    ensures |KeyAssignments(PlayStationPortableKey)| == 1 && KeyAssignments(PlayStationPortableKey)[0].0 == ".cso"
  {
    LowerOfLowerCase(".cso");
  }

  lemma PlayStationAssignments()
    ensures |KeyAssignments(PlayStationKey)| == 2
    ensures KeyAssignments(PlayStationKey)[0].0 == ".bin" && KeyAssignments(PlayStationKey)[1].0 == ".cue"
  {
    LowerOfLowerCase(".bin");
    LowerOfLowerCase(".cue");
  }

  /** No key after the Wii one assigns `.wbfs` or `.iso`. */
  lemma PlayStationKeysAvoid(k: string)
    requires k == ".wbfs" || k == ".iso"
    ensures forall j :: 0 <= j < |KeyAssignments(PlayStationPortableKey)| ==> KeyAssignments(PlayStationPortableKey)[j].0 != k
    ensures forall j :: 0 <= j < |KeyAssignments(PlayStationKey)| ==> KeyAssignments(PlayStationKey)[j].0 != k
  {
    var b := KeyAssignments(PlayStationPortableKey);
    var c := KeyAssignments(PlayStationKey);
    PlayStationPortableAssignments();
    PlayStationAssignments();
    TailExtensionsDiffer();
    forall j | 0 <= j < |c| ensures c[j].0 != k {
      if j == 0 { assert c[0].0 == ".bin"; } else { assert c[1].0 == ".cue"; }
    }
  }

  lemma TailExtensionsDiffer()
    ensures ".iso" != ".wbfs" && ".cso" != ".wbfs" && ".bin" != ".wbfs" && ".cue" != ".wbfs"
    ensures ".cso" != ".iso" && ".bin" != ".iso" && ".cue" != ".iso"
  {
    assert ".cso"[1] != ".iso"[1] && ".bin"[1] != ".iso"[1] && ".cue"[1] != ".iso"[1];
  }

  /** The two extensions of the Wii tuple key both map to the Wii table:
      no later key assigns either of them. */
  lemma WiiExtensionsShareTable()
    ensures ".wbfs" in ExtMap() && ExtMap()[".wbfs"] == WiiKey.1
    ensures ".iso" in ExtMap() && ExtMap()[".iso"] == WiiKey.1
  {
    var a := Assignments(ExtToCsv[..10]);
    var b := KeyAssignments(PlayStationPortableKey);
    var c := KeyAssignments(PlayStationKey);
    ExtMapTail();
    WiiKeyAssigned();
    PlayStationKeysAvoid(".wbfs");
    PlayStationKeysAvoid(".iso");
    AssignAppendUnrelated(a, b, ".wbfs");
    AssignAppendUnrelated(a, b, ".iso");
    AssignAppendUnrelated(a + b, c, ".wbfs");
    AssignAppendUnrelated(a + b, c, ".iso");
  }

  /** `get_csv_path`: the table name the lower-cased extension maps to,
      provided it is non-empty and the file exists. */
  function ExtCsvPath(extMap: map<string, string>, ext: string, store: CsvStore): (r: Option<string>)
  {
    var e := Lower(ext);
    if e in extMap && extMap[e] != [] && extMap[e] in store then Some(extMap[e]) else None
  }

  /** The lookup ignores ASCII case, and it gives a table exactly when the
      lower-cased extension is mapped to a non-empty name of an existing
      file: an unmapped extension or a missing file gives `None`. */
  lemma ExtCsvPathIgnoresCase(extMap: map<string, string>, ext: string, store: CsvStore)
    ensures ExtCsvPath(extMap, Lower(ext), store) == ExtCsvPath(extMap, ext, store)
    ensures ExtCsvPath(extMap, ext, store).Some? <==>
              Lower(ext) in extMap && extMap[Lower(ext)] != [] && extMap[Lower(ext)] in store
    ensures ExtCsvPath(extMap, ext, store).Some? ==> ExtCsvPath(extMap, ext, store).value == extMap[Lower(ext)]
  {
    LowerIdempotent(ext);
  }

  /** The table for a playlist entry: `get_csv_path(Path(path).suffix)`. */
  function ToolCsv(extMap: map<string, string>, store: CsvStore, path: string): Option<string> {
    ExtCsvPath(extMap, Suffix(path), store)
  }

  function ToolTable(extMap: map<string, string>, store: CsvStore): string -> Option<string> {
    (path: string) => ToolCsv(extMap, store, path)
  }

  /** The body of the `try` of `_preview_roms` and `_rename_roms` for one
      regular file. */
  function ToolRomStep(task: RenameJob, extMap: map<string, string>, folder: set<string>,
                       cache: map<string, Mapping>, filename: string): (r: (Outcome, set<string>, map<string, Mapping>))
  {
    var (name, ext) := SplitExt(filename);
    if !IsChineseFilename(name) then (English, folder, cache)
    else
      match ExtCsvPath(extMap, ext, task.store)
      case None => (NoCsv, folder, cache)
      case Some(csv) => MatchStep(task, csv, folder, cache, filename, name, ext)
  }

  /** The CJK test comes before the table lookup: a name without a CJK
      character is english whatever its extension, and only a CJK name
      whose extension has no table counts as no-csv; neither test touches
      the folder or the cache, and there is no wrong-extension bucket. */
  lemma ToolRomStepChecksCjkFirst(task: RenameJob, extMap: map<string, string>, folder: set<string>,
                                  cache: map<string, Mapping>, filename: string)
    ensures var r := ToolRomStep(task, extMap, folder, cache, filename);
      var (name, ext) := SplitExt(filename);
      && (r.0 == English <==> !IsChineseFilename(name))
      && (r.0 == NoCsv <==> IsChineseFilename(name) && ExtCsvPath(extMap, ext, task.store).None?)
      && (r.0 == English || r.0 == NoCsv ==> r.1 == folder && r.2 == cache)
      && r.0 != WrongExt
  {
  }

  /** The folder changes only through a committed rename, and a target is
      never a name already in the folder. */
  lemma ToolRomStepFolder(task: RenameJob, extMap: map<string, string>, folder: set<string>,
                          cache: map<string, Mapping>, filename: string)
    ensures var r := ToolRomStep(task, extMap, folder, cache, filename);
      && (!(r.0.Renamed? && task.commit) ==> r.1 == folder)
      && (r.0.Renamed? ==> r.0.target !in folder)
  {
  }

  /** A file is renamed (or reported for renaming) exactly when its name
      has a CJK character, its extension has a table, the table loads, the
      matcher's name has a non-empty English entry, and the move does not
      raise; the target is the unique name for the English name and the
      extension. */
  lemma ToolRomStepRenamesOnlyMatches(task: RenameJob, extMap: map<string, string>, folder: set<string>,
                                      cache: map<string, Mapping>, filename: string)
    ensures var (name, ext) := SplitExt(filename);
      var csv := ExtCsvPath(extMap, ext, task.store);
      var loaded := if csv.Some? then LoadStep(cache, task.store, csv.value).0 else Failure(ReadFailed);
      var eng := if loaded.Success? then MatchedEnglish(task.m, task.threshold, loaded.value, name) else None;
      var r := ToolRomStep(task, extMap, folder, cache, filename);
      && (r.0.Renamed? <==>
            IsChineseFilename(name) && csv.Some? && eng.Some? && !(task.commit && filename in task.failing))
      && (r.0.Renamed? ==> r.0.target == Allocation(folder, eng.value + ext))
  {
  }

  /** The loop over the listing: entries that are not regular files are
      passed over; every regular file gets exactly one outcome, in order. */
  function ToolSweep(task: RenameJob, extMap: map<string, string>, folder: set<string>,
                     cache: map<string, Mapping>, entries: seq<Entry>): (r: Sweep)
    ensures |r.outcomes| == |Filter(entries, IsFile)|
    ensures !task.commit ==> r.folder == folder
    ensures forall i :: 0 <= i < |r.outcomes| ==> r.outcomes[i] != WrongExt
  {
    if entries == [] then Sweep(folder, cache, [])
    else
      var s := ToolSweep(task, extMap, folder, cache, entries[..|entries| - 1]);
      var e := entries[|entries| - 1];
      if !e.isFile then s
      else
        var step := ToolRomStep(task, extMap, s.folder, s.cache, e.name);
        ToolRomStepChecksCjkFirst(task, extMap, s.folder, s.cache, e.name);
        ToolRomStepFolder(task, extMap, s.folder, s.cache, e.name);
        Sweep(step.1, step.2, s.outcomes + [step.0])
  }

  /** One more entry of the listing: a regular file takes one step. */
  lemma ToolSweepStep(task: RenameJob, extMap: map<string, string>, folder: set<string>, cache0: map<string, Mapping>,
                      entries: seq<Entry>, i: nat, after: set<string>, cache: map<string, Mapping>, outcomes: seq<Outcome>)
    requires i < |entries|
    requires ToolSweep(task, extMap, folder, cache0, entries[..i]) == Sweep(after, cache, outcomes)
    ensures ToolSweep(task, extMap, folder, cache0, entries[..i + 1]) ==
      if entries[i].isFile then
        var step := ToolRomStep(task, extMap, after, cache, entries[i].name);
        Sweep(step.1, step.2, outcomes + [step.0])
      else Sweep(after, cache, outcomes)
  {
    assert entries[..i + 1][..i] == entries[..i];
  }

  /** Every regular file adds one to the total and to exactly one of
      renamed, skipped, english, no-csv and errors; a preview leaves the
      folder as it was. */
  lemma ToolSweepAccounts(task: RenameJob, extMap: map<string, string>, folder: set<string>,
                          cache: map<string, Mapping>, entries: seq<Entry>)
    ensures var s := ToolSweep(task, extMap, folder, cache, entries);
      var t := TallyOf(s.outcomes);
      && t.total == |Filter(entries, IsFile)|
      && t.total == t.renamed + t.skipped + t.english + t.noCsv + t.errors
      && t.wrongExt == 0
      && (!task.commit ==> s.folder == folder)
  {
    UnusedBuckets(ToolSweep(task, extMap, folder, cache, entries).outcomes);
  }

  /** In a converted playlist an item whose extension has no table keeps
      its label, and the total is the number of items, each counted once
      as converted, skipped or no-csv. */
  lemma ToolLplAccounts(m: Metrics, threshold: int, store: CsvStore, extMap: map<string, string>,
                        cache: map<string, Mapping>, lplPath: string, items: seq<LplItem>)
    requires CacheValid(cache)
    ensures var r := ConvertLplSpec(m, threshold, store, ToolTable(extMap, store), cache, lplPath, LplDocument(Some(items))).0;
      r.LplConverted? ==>
        && |r.items| == |items|
        && r.counts.total == |items| == r.counts.converted + r.counts.skipped + r.counts.noMatch
        && (forall i :: 0 <= i < |items| && ExtCsvPath(extMap, Suffix(GetOr(items[i].path)), store).None? ==> r.items[i] == items[i])
  {
    var resolve := ToolTable(extMap, store);
    ConvertLplAccounts(m, threshold, store, resolve, cache, lplPath, items);
    var qs := LplQueries(items);
    var run := RelabelAll(m, threshold, store, resolve, cache, qs);
    if !run.aborted {
      RelabelAllNoTable(m, threshold, store, resolve, cache, qs);
      var relabelled := RelabelItems(items, run.outcomes);
      forall i | 0 <= i < |items| && ToolCsv(extMap, store, GetOr(items[i].path)).None?
        ensures relabelled[i] == items[i]
      {
        assert qs[i].Some? && resolve(qs[i].value.1).None?;
        assert run.outcomes[i] == NoMatch;
      }
    }
  }

  /** The mapper of this tool: its memo of loaded tables and its
      extension map. */
  class ToolMapper {
    var extMap: map<string, string>
    const tables: CsvMapper

    constructor()
      ensures extMap == ExtMap() && fresh(tables) && tables.cache == map[]
    {
      tables := new CsvMapper();
      new;
      BuildExtMap();
    }

    /** `_build_ext_map`. */
    method BuildExtMap()
      modifies this
      ensures extMap == ExtMap()
    {
      extMap := AssignAll(ExtToCsv);
    }
  }

  /** The loop of `_build_ext_map` over the items of a table like
      `EXT_TO_CSV`, key after key. */
  method AssignAll(table: seq<(ExtKey, string)>) returns (extMap: map<string, string>)
    ensures extMap == Assign(Assignments(table))
  {
    extMap := map[];
    for i := 0 to |table|
      invariant extMap == Assign(Assignments(table[..i]))
    {
      var (key, csv) := table[i];
      extMap := AssignKey(extMap, Assignments(table[..i]), key, csv);
      AssignmentsSnoc(table, i);
    }
    assert table[..|table|] == table;
  }

  /** The body of that loop: each extension of a tuple key, or the single
      extension, lower-cased, is assigned the key's table. */
  method AssignKey(extMap: map<string, string>, ghost before: seq<(string, string)>, key: ExtKey, csv: string)
    returns (r: map<string, string>)
    requires extMap == Assign(before)
    ensures r == Assign(before + KeyAssignments((key, csv)))
  {
    match key {
      case ExtTuple(exts) =>
        r := AssignTuple(extMap, before, exts, csv);
      case OneExt(ext) =>
        r := extMap[Lower(ext) := csv];
        ghost var added := KeyAssignments((key, csv));
        assert (before + added)[..|before|] == before;
    }
  }

  /** `for ext in key: self.ext_map[ext.lower()] = csv_name`. */
  method AssignTuple(extMap: map<string, string>, ghost before: seq<(string, string)>, exts: seq<string>, csv: string)
    returns (r: map<string, string>)
    requires extMap == Assign(before)
    ensures r == Assign(before + KeyAssignments((ExtTuple(exts), csv)))
  {
    ghost var added := KeyAssignments((ExtTuple(exts), csv));
    r := extMap;
    assert before + added[..0] == before;
    for j := 0 to |exts|
      invariant r == Assign(before + added[..j])
    {
      r := r[Lower(exts[j]) := csv];
      AssignPrefixStep(before, added, j);
    }
    assert added[..|exts|] == added;
  }

  /** The application object: whether a task is running, and its mapper. */
  class ToolApp {
    var running: bool
    const mapper: ToolMapper

    /** Every cached table is well formed, and the extension map is the
        one built from `EXT_TO_CSV`. */
    predicate Valid()
      reads mapper, mapper.tables
    {
      CacheValid(mapper.tables.cache) && mapper.extMap == ExtMap()
    }

    constructor()
      ensures !running && fresh(mapper) && fresh(mapper.tables)
      ensures mapper.tables.cache == map[] && mapper.extMap == ExtMap() && Valid()
    {
      running := false;
      mapper := new ToolMapper();
    }

    /** `_validate_and_start`: as in the other application, a running task
        makes this a no-op, a threshold that is not an integer in 0..100
        is refused, and otherwise the job is marked running with an empty
        cache. */
    method ValidateAndStart(input: Option<int>) returns (r: Option<int>)
      modifies this, mapper.tables
      ensures old(running) ==> r.None? && running && mapper.tables.cache == old(mapper.tables.cache)
      ensures !old(running) && (input.None? || !(0 <= input.value <= 100)) ==>
                r.None? && !running && mapper.tables.cache == old(mapper.tables.cache)
      ensures !old(running) && input.Some? && 0 <= input.value <= 100 ==>
                r == input && running && mapper.tables.cache == map[]
      ensures old(Valid()) ==> Valid()
    {
      if running {
        return None;
      }
      if input.None? || !(0 <= input.value <= 100) {
        return None;
      }
      running := true;
      mapper.tables.ClearCache();
      return input;
    }

    /** The `try` of the preview and rename loops for one regular file. */
    method HandleRom(task: RenameJob, folder: set<string>, filename: string) returns (o: Outcome, after: set<string>)
      requires Valid()
      modifies mapper.tables
      ensures (o, after, mapper.tables.cache) == ToolRomStep(task, ExtMap(), folder, old(mapper.tables.cache), filename)
      ensures Valid()
    {
      var (name, ext) := SplitExt(filename);
      if !IsChineseFilename(name) {
        return English, folder;
      }
      var csv := ExtCsvPath(mapper.extMap, ext, task.store);
      if csv.None? {
        return NoCsv, folder;
      }
      o, after := MatchAndCommit(mapper.tables, task, csv.value, folder, filename, name, ext);
    }

    /** `_preview_roms` (commit false) and `_rename_roms` (commit true):
        every regular file of the listing is handled and counted; the job
        ends. */
    method RunRoms(task: RenameJob, folder: set<string>, entries: seq<Entry>)
      returns (outcomes: seq<Outcome>, stats: Tally, after: set<string>)
      requires Valid()
      modifies this, mapper.tables
      ensures ToolSweep(task, ExtMap(), folder, old(mapper.tables.cache), entries) == Sweep(after, mapper.tables.cache, outcomes)
      ensures stats == TallyOf(outcomes)
      ensures Valid() && !running
    {
      ghost var cache0 := mapper.tables.cache;
      outcomes, stats, after := [], NoFiles, folder;
      for i := 0 to |entries|
        invariant ToolSweep(task, mapper.extMap, folder, cache0, entries[..i]) == Sweep(after, mapper.tables.cache, outcomes)
        invariant stats == TallyOf(outcomes)
        invariant Valid()
      {
        ToolSweepStep(task, mapper.extMap, folder, cache0, entries, i, after, mapper.tables.cache, outcomes);
        if entries[i].isFile {
          var o;
          o, after := HandleRom(task, after, entries[i].name);
          TallySnoc(outcomes, o);
          outcomes := outcomes + [o];
          stats := Bump(stats, o);
        }
      }
      assert entries[..|entries|] == entries;
      running := false;
    }

    /** `_convert_lpl`: every item is looked up by its path's suffix,
        relabelled in place and counted; a table that fails to load ends
        the conversion; the job ends. */
    method ConvertLpl(m: Metrics, threshold: int, store: CsvStore, lplPath: string, read: LplRead) returns (report: LplReport)
      requires Valid()
      modifies this, mapper.tables
      ensures Valid() && !running
      ensures (report, mapper.tables.cache) ==
                ConvertLplSpec(m, threshold, store, ToolTable(ExtMap(), store), old(mapper.tables.cache), lplPath, read)
    {
      running := false;
      if read.LplUnreadable? {
        return LplFailed;
      }
      if read.items.None? {
        return LplMalformed;
      }
      var items, counts, ok := ConvertItems(m, threshold, store, read.items.value);
      if !ok {
        return LplFailed;
      }
      return LplConverted(items, counts, LplSaveName(lplPath));
    }

    /** The loop of `_convert_lpl` over `lpl['items']`. */
    method ConvertItems(m: Metrics, threshold: int, store: CsvStore, items0: seq<LplItem>)
      returns (items: seq<LplItem>, counts: ConvertCounts, ok: bool)
      requires Valid()
      modifies mapper.tables
      ensures Valid()
      ensures var run := RelabelAll(m, threshold, store, ToolTable(ExtMap(), store), old(mapper.tables.cache), LplQueries(items0));
        && ok == !run.aborted && mapper.tables.cache == run.cache
        && (ok ==> items == RelabelItems(items0, run.outcomes))
        && (ok ==> counts == CountsOf(run.outcomes).(total := |items0|))
    {
      items := items0;
      ghost var resolve := ToolTable(mapper.extMap, store);
      ghost var cache0 := mapper.tables.cache;
      ghost var outs: seq<ItemOutcome> := [];
      var tally := ConvertCounts(0, 0, 0, 0);
      for i := 0 to |items|
        invariant LplProgress(m, threshold, store, resolve, cache0, items0, i, items, outs, mapper.tables.cache)
        invariant Valid()
        invariant tally == CountsOf(outs)
      {
        var table := ToolCsv(mapper.extMap, store, GetOr(items[i].path));
        var o;
        o, items, outs := ConvertItemAt(mapper.tables, m, threshold, store, resolve, cache0, items0, i, items, outs, table);
        if o.None? {
          return items, tally, false;
        }
        tally := CountItem(tally, o.value);
      }
      LplProgressDone(m, threshold, store, resolve, cache0, items0, items, outs, mapper.tables.cache);
      return items, tally.(total := |items|), true;
    }
  }
}
