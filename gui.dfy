/** `RenamerApp` of `gui.py`: the per-platform rename and preview loops,
    the RetroArch playlist (LPL) and XML playlist converters, and the guard
    that starts a task. The folder is the set of names in it; `os.listdir`
    is the list of entries given to a loop; the names whose `os.rename`
    raises are a parameter. */
module Gui {
  import opened Wrappers
  import opened Seqs
  import opened Text
  import opened Paths
  import opened PyDict
  import opened Config
  import opened Cleaner
  import opened Matcher
  import opened Mapper
  import opened UniqueName
  import opened Relabel
  import opened Batch

  /** What every rename or preview loop works with: the matcher, the
      threshold, the tables, whether files are really moved, and the names
      whose `os.rename` raises. */
  datatype RenameJob = RenameJob(m: Metrics, threshold: int, store: CsvStore, commit: bool, failing: set<string>)

  /** What one rename or preview loop of this application works with once
      its platform checks have passed: the platform's extensions and
      table. */
  datatype RomJob = RomJob(task: RenameJob, exts: seq<string>, csv: string)

  /** `match and (eng := mapping['cn_to_eng'].get(match))`: the English
      name to rename to, when the matcher returns a non-empty name whose
      `cn_to_eng` entry is non-empty. */
  function MatchedEnglish(m: Metrics, threshold: int, mp: Mapping, name: string): (r: Option<string>)
    ensures r.Some? ==> r.value != []
  {
    var found := MatchSpec(m, Clean(name), mp.cnList, threshold).found;
    if found.Some? && found.value != [] then
      match Get(mp.cnToEng, found.value)
      case None => None
      case Some(eng) => if eng != [] then Some(eng) else None
    else None
  }

  /** The English name comes from the table: it is the `cn_to_eng` entry of
      a name the matcher returned, which is one of the table's localised
      names and reached the threshold. */
  lemma MatchedEnglishFromTable(m: Metrics, threshold: int, mp: Mapping, name: string)
    requires ValidMetrics(m)
    requires MatchedEnglish(m, threshold, mp, name).Some?
    ensures var r := MatchSpec(m, Clean(name), mp.cnList, threshold);
      && r.found.Some? && r.found.value in mp.cnList && r.score >= threshold as real
      && r.found.value in mp.cnToEng.values
      && mp.cnToEng.values[r.found.value] == MatchedEnglish(m, threshold, mp, name).value
  {
    MatchIsBestChoice(m, Clean(name), mp.cnList, threshold);
  }

  /** The body of the loop's `try` for one regular file: the bucket, the
      folder afterwards and the cache afterwards. */
  function RomStep(job: RomJob, folder: set<string>, cache: map<string, Mapping>, filename: string): (r: (Outcome, set<string>, map<string, Mapping>))
  {
    var (name, ext) := SplitExt(filename);
    if Lower(ext) !in job.exts then (WrongExt, folder, cache)
    else if !IsChineseFilename(name) then (English, folder, cache)
    else MatchStep(job.task, job.csv, folder, cache, filename, name, ext)
  }

  /** The part of the `try` after the two tests: load the table, match,
      and rename to a fresh name. Only a committed rename changes the
      folder, and its target was not in it. */
  function MatchStep(task: RenameJob, csv: string, folder: set<string>, cache: map<string, Mapping>,
                     filename: string, name: string, ext: string): (r: (Outcome, set<string>, map<string, Mapping>))
    ensures r.0 != WrongExt && r.0 != English && r.0 != NoCsv
    ensures !(r.0.Renamed? && task.commit) ==> r.1 == folder
    ensures r.0.Renamed? ==> r.0.target !in folder
  {
    var loaded := LoadStep(cache, task.store, csv);
    if loaded.0.Failure? then (Failed, folder, loaded.1)
    else
      match MatchedEnglish(task.m, task.threshold, loaded.0.value, name)
      case None => (Skipped, folder, loaded.1)
      case Some(eng) =>
        var moved := Commit(folder, task.failing, task.commit, filename, eng + ext);
        (moved.0, moved.1, loaded.1)
  }

  /** The extension test comes first and the CJK test second; neither
      touches the table or the folder, and no file lands in the
      missing-table bucket. */
  lemma RomStepChecksExtensionFirst(job: RomJob, folder: set<string>, cache: map<string, Mapping>, filename: string)
    ensures var r := RomStep(job, folder, cache, filename);
      var (name, ext) := SplitExt(filename);
      && (r.0 == WrongExt <==> Lower(ext) !in job.exts)
      && (r.0 == English <==> Lower(ext) in job.exts && !IsChineseFilename(name))
      && (r.0 == WrongExt || r.0 == English ==> r.1 == folder && r.2 == cache)
      && r.0 != NoCsv
  {
  }

  /** The folder changes only through a committed rename, and a target is
      never a name already in the folder. */
  lemma RomStepFolder(job: RomJob, folder: set<string>, cache: map<string, Mapping>, filename: string)
    ensures var r := RomStep(job, folder, cache, filename);
      && (!(r.0.Renamed? && job.task.commit) ==> r.1 == folder)
      && (r.0.Renamed? ==> r.0.target !in folder)
  {
  }

  /** A file is renamed (or, in a preview, reported for renaming) exactly
      when its extension belongs to the platform, its name has a CJK
      character, the table loads, the matcher's name has a non-empty
      English entry, and the move does not raise; the target is the unique
      name derived from the English name and the extension. */
  lemma RomStepRenamesOnlyMatches(job: RomJob, folder: set<string>, cache: map<string, Mapping>, filename: string)
    ensures var (name, ext) := SplitExt(filename);
      var loaded := LoadStep(cache, job.task.store, job.csv).0;
      var eng := if loaded.Success? then MatchedEnglish(job.task.m, job.task.threshold, loaded.value, name) else None;
      && (RomStep(job, folder, cache, filename).0.Renamed? <==>
            Lower(ext) in job.exts && IsChineseFilename(name) && eng.Some? && !(job.task.commit && filename in job.task.failing))
      && (RomStep(job, folder, cache, filename).0.Renamed? ==>
            RomStep(job, folder, cache, filename).0.target == Allocation(folder, eng.value + ext))
  {
  }

  /** A table that fails to load costs exactly one error for each file that
      reaches it, and the loop goes on. */
  lemma RomStepLoadFailureIsAnError(job: RomJob, folder: set<string>, cache: map<string, Mapping>, filename: string)
    requires Lower(SplitExt(filename).1) in job.exts && IsChineseFilename(SplitExt(filename).0)
    requires LoadStep(cache, job.task.store, job.csv).0.Failure?
    ensures RomStep(job, folder, cache, filename) == (Failed, folder, cache)
  {
  }

  /** The state a rename loop threads through its iterations. */
  datatype Sweep = Sweep(folder: set<string>, cache: map<string, Mapping>, outcomes: seq<Outcome>)

  /** The loop over the listing: entries that are not regular files are
      passed over; every regular file gets exactly one outcome, in order. */
  function SweepRoms(job: RomJob, folder: set<string>, cache: map<string, Mapping>, entries: seq<Entry>): (r: Sweep)
    ensures |r.outcomes| == |Filter(entries, IsFile)|
    ensures !job.task.commit ==> r.folder == folder
    ensures forall i :: 0 <= i < |r.outcomes| ==> r.outcomes[i] != NoCsv
  {
    if entries == [] then Sweep(folder, cache, [])
    else
      var s := SweepRoms(job, folder, cache, entries[..|entries| - 1]);
      var e := entries[|entries| - 1];
      if !e.isFile then s
      else
        var step := RomStep(job, s.folder, s.cache, e.name);
        RomStepChecksExtensionFirst(job, s.folder, s.cache, e.name);
        RomStepFolder(job, s.folder, s.cache, e.name);
        Sweep(step.1, step.2, s.outcomes + [step.0])
  }

  /** How a rename or preview run ends: the platform is unknown, its table
      is missing, or the loop ran and produced these outcomes and
      statistics. */
  datatype RunReport = NoPlatform | NoTable | Finished(outcomes: seq<Outcome>, stats: Tally)

  /** `_preview_roms` (commit false) and `_rename_roms` (commit true): the
      report, the folder afterwards and the cache afterwards. */
  function RunRomsSpec(m: Metrics, threshold: int, platform: string, store: CsvStore, commit: bool, failing: set<string>,
                       folder: set<string>, cache: map<string, Mapping>, entries: seq<Entry>): (r: (RunReport, set<string>, map<string, Mapping>))
  {
    var exts := GetPlatformExtensions(platform);
    if exts == [] then (NoPlatform, folder, cache)
    else
      match GetCsvPath(platform, store)
      case None => (NoTable, folder, cache)
      case Some(csv) =>
        var s := SweepRoms(RomJob(RenameJob(m, threshold, store, commit, failing), exts, csv), folder, cache, entries);
        (Finished(s.outcomes, TallyOf(s.outcomes)), s.folder, s.cache)
  }

  /** A finished run counts every regular file once and puts it in exactly
      one of renamed, skipped, english, wrong extension and errors; a
      preview leaves the folder as it was; an unknown platform or a missing
      table stops the run before any file is looked at. */
  lemma RunRomsAccounts(m: Metrics, threshold: int, platform: string, store: CsvStore, commit: bool, failing: set<string>,
                        folder: set<string>, cache: map<string, Mapping>, entries: seq<Entry>)
    ensures var r := RunRomsSpec(m, threshold, platform, store, commit, failing, folder, cache, entries);
      && (r.0.Finished? ==>
            && r.0.stats.total == |Filter(entries, IsFile)|
            && r.0.stats.total == r.0.stats.renamed + r.0.stats.skipped + r.0.stats.english + r.0.stats.wrongExt + r.0.stats.errors
            && r.0.stats.noCsv == 0)
      && (!commit ==> r.1 == folder)
      && (Lookup(platform).None? ==> r == (NoPlatform, folder, cache))
      && (Lookup(platform).Some? && GetCsvPath(platform, store).None? ==> r == (NoTable, folder, cache))
  {
    var r := RunRomsSpec(m, threshold, platform, store, commit, failing, folder, cache, entries);
    if r.0.Finished? {
      var exts := GetPlatformExtensions(platform);
      var csv := GetCsvPath(platform, store).value;
      UnusedBuckets(SweepRoms(RomJob(RenameJob(m, threshold, store, commit, failing), exts, csv), folder, cache, entries).outcomes);
    }
  }

  /** The platform scan `for platform_name, config in
      PLATFORM_CONFIG.items(): if ext in config['extensions']: break`. */
  method FindPlatform(ext: string) returns (r: Option<nat>)
    ensures r == FirstPlatformWith(ext)
  {
    var i := 0;
    while i < |PlatformConfig|
      invariant 0 <= i <= |PlatformConfig|
      invariant forall j :: 0 <= j < i ==> ext !in PlatformConfig[j].extensions
    {
      if ext in PlatformConfig[i].extensions {
        FirstIndexIsOnlyCandidate(PlatformConfig, Accepts(ext), i);
        return Some(i);
      }
      i := i + 1;
    }
    assert forall j :: 0 <= j < |PlatformConfig| ==> !Accepts(ext)(PlatformConfig[j]);
    return None;
  }

  /** The table for a playlist entry: that of the first platform whose
      extensions hold the lower-cased suffix of the path, if its file
      exists. */
  function ItemCsv(store: CsvStore, path: string): Option<string> {
    match FirstPlatformWith(Lower(Suffix(path)))
    case None => None
    case Some(k) => if PlatformConfig[k].csv in store then Some(PlatformConfig[k].csv) else None
  }

  function ItemTable(store: CsvStore): string -> Option<string> {
    (path: string) => ItemCsv(store, path)
  }

  /** The table of an item is what `get_csv_path` gives for the first
      platform whose extensions hold the item's lower-cased suffix, and
      there is none when no platform holds it. */
  lemma ItemTableIsGetCsvPath(store: CsvStore, path: string)
    ensures var k := FirstPlatformWith(Lower(Suffix(path)));
      ItemTable(store)(path) == if k.None? then None else GetCsvPath(PlatformConfig[k.value].name, store)
  {
    match FirstPlatformWith(Lower(Suffix(path)))
    case None =>
    case Some(k) =>
      PlatformConfigWellFormed();
      var e := Lookup(PlatformConfig[k].name);
      var i :| 0 <= i < |PlatformConfig| && PlatformConfig[i] == e.value;
      assert i == k;
  }

  /** One entry of an LPL playlist: its `label` and `path` keys, if present. */
  datatype LplItem = LplItem(title: Option<string>, path: Option<string>)

  /** What `json.load` gives: an unreadable file, or a document with or
      without an `items` list. */
  datatype LplRead = LplUnreadable | LplDocument(items: Option<seq<LplItem>>)

  /** How a conversion ends: the outer `try` caught an exception, the
      document has no `items`, or the playlist was converted and is saved
      under `saveName`. */
  datatype LplReport = LplFailed | LplMalformed | LplConverted(items: seq<LplItem>, counts: ConvertCounts, saveName: string)

  function GetOr(o: Option<string>): string {
    match o case None => [] case Some(s) => s
  }

  /** `item.get('label', '')` and `item.get('path', '')`. */
  function LplQueries(items: seq<LplItem>): (qs: seq<Option<(string, string)>>)
    ensures |qs| == |items|
    ensures forall i :: 0 <= i < |items| ==> qs[i] == Some((GetOr(items[i].title), GetOr(items[i].path)))
  {
    seq(|items|, i requires 0 <= i < |items| => Some((GetOr(items[i].title), GetOr(items[i].path))))
  }

  /** `item['label'] = best_match` for a relabelled item. */
  function RelabelItem(item: LplItem, o: ItemOutcome): (r: LplItem)
    ensures r.path == item.path
    ensures o.Relabelled? ==> r.title == Some(o.newLabel)
    ensures !o.Relabelled? ==> r == item
  {
    if o.Relabelled? then item.(title := Some(o.newLabel)) else item
  }

  /** The items with the new labels written in. */
  function RelabelItems(items: seq<LplItem>, outs: seq<ItemOutcome>): (r: seq<LplItem>)
    requires |outs| == |items|
    ensures |r| == |items|
    ensures forall i :: 0 <= i < |items| ==> r[i] == RelabelItem(items[i], outs[i])
  {
    seq(|items|, i requires 0 <= i < |items| => RelabelItem(items[i], outs[i]))
  }

  /** The file name the converted playlist is saved under: no underscore,
      no whitespace at either end, and (for a one-line name) no `[`
      followed later by `]`. */
  function LplSaveName(lplPath: string): (r: string)
    ensures '_' !in r
    ensures r == [] || (!IsSpace(r[0]) && !IsSpace(r[|r| - 1]))
    ensures '\n' !in lplPath ==> NoBracketPair(r, {'['}, {']'})
  {
    var n := Name(lplPath);
    var a := ReplaceAll(n, "_", " ");
    var b := RemoveSpans(a, {'['}, {']'});
    LplSaveNameNoUnderscore(n, a, b);
    if '\n' !in lplPath then
      LplSaveNameNoBrackets(lplPath, n, a, b);
      Strip(b)
    else Strip(b)
  }

  lemma LplSaveNameNoUnderscore(n: string, a: string, b: string)
    requires a == ReplaceAll(n, "_", " ") && b == RemoveSpans(a, {'['}, {']'})
    ensures '_' !in Strip(b)
  {
    ReplaceAllRemoves(n, "_", " ", '_');
    RemoveSpansKeepsAbsent(a, {'['}, {']'}, '_');
    StripKeepsAbsent(b, '_');
  }

  lemma LplSaveNameNoBrackets(lplPath: string, n: string, a: string, b: string)
    requires n == Name(lplPath) && a == ReplaceAll(n, "_", " ") && b == RemoveSpans(a, {'['}, {']'})
    requires '\n' !in lplPath
    ensures NoBracketPair(Strip(b), {'['}, {']'})
  {
    NameKeepsAbsent(lplPath, '\n');
    ReplaceAllRemoves(n, "_", " ", '\n');
    OneLineSpansLeaveNoPair(a);
    StripKeepsNoPair(b, {'['}, {']'});
  }

  lemma OneLineSpansLeaveNoPair(a: string)
    requires '\n' !in a
    ensures NoBracketPair(RemoveSpans(a, {'['}, {']'}), {'['}, {']'})
  {
    RemoveSpansLeavesNoPair(a, {'['}, {']'});
  }

  /** A playlist file name with no directory, no underscore, no `[` and no
      whitespace at either end is saved under its own name. */
  lemma LplSaveNameOfPlainName(p: string)
    requires forall k :: 0 <= k < |p| ==> p[k] != '/' && p[k] != '_' && p[k] != '['
    requires p == [] || (!IsSpace(p[0]) && !IsSpace(p[|p| - 1]))
    ensures LplSaveName(p) == p
  {
    assert Name(p) == p;
    ReplaceAllWithoutPattern(p, "_", " ");
    RemoveSpansWithoutOpener(p, {'['}, {']'});
    StripOfTrimmed(p);
  }

  /** `_convert_lpl` from the parsed document to the report and the
      cache afterwards; `resolve` is the table lookup for an item's path,
      `ItemTable(store)` in the application. */
  function ConvertLplSpec(m: Metrics, threshold: int, store: CsvStore, resolve: string -> Option<string>, cache: map<string, Mapping>,
                          lplPath: string, read: LplRead): (r: (LplReport, map<string, Mapping>))
    requires CacheValid(cache)
  {
    match read
    case LplUnreadable => (LplFailed, cache)
    case LplDocument(None) => (LplMalformed, cache)
    case LplDocument(Some(items)) =>
      var run := RelabelAll(m, threshold, store, resolve, cache, LplQueries(items));
      if run.aborted then (LplFailed, run.cache)
      else
        (LplConverted(RelabelItems(items, run.outcomes), CountsOf(run.outcomes).(total := |items|), LplSaveName(lplPath)), run.cache)
  }

  /** A converted playlist has as many items as the input, with the same
      paths; an item's label changes only to a non-empty localised name;
      and the total is the number of items, each counted once as converted,
      skipped or no-match. */
  lemma ConvertLplAccounts(m: Metrics, threshold: int, store: CsvStore, resolve: string -> Option<string>, cache: map<string, Mapping>,
                           lplPath: string, items: seq<LplItem>)
    requires CacheValid(cache)
    ensures var r := ConvertLplSpec(m, threshold, store, resolve, cache, lplPath, LplDocument(Some(items))).0;
      r.LplConverted? ==>
        && |r.items| == |items|
        && r.counts.total == |items| == r.counts.converted + r.counts.skipped + r.counts.noMatch
        && (forall i :: 0 <= i < |items| ==> r.items[i].path == items[i].path)
        && (forall i :: 0 <= i < |items| && r.items[i] != items[i] ==>
              r.items[i].title.Some? && r.items[i].title.value != [])
  {
    var qs := LplQueries(items);
    var run := RelabelAll(m, threshold, store, resolve, cache, qs);
    RelabelAllShape(m, threshold, store, resolve, cache, qs);
    if !run.aborted {
      RelabelledItemsShape(items, qs, run.outcomes);
    }
  }

  lemma RelabelledItemsShape(items: seq<LplItem>, qs: seq<Option<(string, string)>>, outs: seq<ItemOutcome>)
    requires |qs| == |items| == |outs| && forall i :: 0 <= i < |items| ==> qs[i].Some?
    requires forall i :: 0 <= i < |qs| ==> (outs[i] == Ignored <==> qs[i].None?)
    requires forall i :: 0 <= i < |qs| && outs[i].Relabelled? ==> outs[i].newLabel != []
    ensures var r := RelabelItems(items, outs);
      && CountsOf(outs).total == |items|
      && (forall i :: 0 <= i < |items| ==> r[i].path == items[i].path)
      && (forall i :: 0 <= i < |items| && r[i] != items[i] ==> r[i].title.Some? && r[i].title.value != [])
  {
    assert forall i :: 0 <= i < |outs| ==> outs[i] != Ignored;
  }

  /** One game of an XML playlist: the text of its `name` and `path`
      elements, `None` for an element that is missing. */
  datatype Game = Game(name: Option<string>, path: Option<string>)

  datatype XmlRead = XmlUnreadable | XmlDocument(games: seq<Game>)

  datatype XmlReport = XmlFailed | XmlConverted(games: seq<Game>, counts: ConvertCounts, saveName: string)

  /** Games without a `name` or a `path` element are passed over. */
  function XmlQueries(games: seq<Game>): (qs: seq<Option<(string, string)>>)
    ensures |qs| == |games|
    ensures forall i :: 0 <= i < |games| ==> (qs[i].None? <==> games[i].name.None? || games[i].path.None?)
    ensures forall i :: 0 <= i < |games| && qs[i].Some? ==> qs[i].value == (games[i].name.value, games[i].path.value)
  {
    seq(|games|, i requires 0 <= i < |games| =>
      if games[i].name.Some? && games[i].path.Some? then Some((games[i].name.value, games[i].path.value)) else None)
  }

  /** `name_elem.text = best_match` for a relabelled game. */
  function RelabelGame(game: Game, o: ItemOutcome): (r: Game)
    ensures r.path == game.path
    ensures o.Relabelled? ==> r.name == Some(o.newLabel)
    ensures !o.Relabelled? ==> r == game
  {
    if o.Relabelled? then game.(name := Some(o.newLabel)) else game
  }

  /** The games with the new names written in. */
  function RelabelGames(games: seq<Game>, outs: seq<ItemOutcome>): (r: seq<Game>)
    requires |outs| == |games|
    ensures |r| == |games|
    ensures forall i :: 0 <= i < |games| ==> r[i] == RelabelGame(games[i], outs[i])
  {
    seq(|games|, i requires 0 <= i < |games| => RelabelGame(games[i], outs[i]))
  }

  /** `Path(xml_path).name.replace('.xml', '_CN.xml')`. */
  function XmlSaveName(xmlPath: string): string {
    ReplaceAll(Name(xmlPath), ".xml", "_CN.xml")
  }

  /** A playlist `dir/stem.xml` whose stem has neither a separator nor a
      dot is saved as `stem_CN.xml`. */
  lemma XmlSaveNameOfPlainStem(dir: string, stem: string)
    requires '/' !in stem && '.' !in stem
    ensures XmlSaveName(dir + "/" + stem + ".xml") == stem + "_CN.xml"
  {
    var p := dir + "/" + stem + ".xml";
    var i := |dir|;
    assert p[i] == '/';
    forall k | i < k < |p|
      ensures p[k] != '/'
    {
      if k <= i + |stem| {
        assert p[k] == stem[k - i - 1];
      } else {
        assert p[k] == ".xml"[k - i - 1 - |stem|];
      }
    }
    NameAfterLastSlash(p, i);
    assert p[i + 1..] == stem + ".xml";
    ReplaceAllTail(stem, ".xml", "_CN.xml");
  }

  /** `_convert_xml` from the parsed document to the report and the cache
      afterwards, with `resolve` as for `ConvertLplSpec`. */
  function ConvertXmlSpec(m: Metrics, threshold: int, store: CsvStore, resolve: string -> Option<string>, cache: map<string, Mapping>,
                          xmlPath: string, read: XmlRead): (r: (XmlReport, map<string, Mapping>))
    requires CacheValid(cache)
  {
    match read
    case XmlUnreadable => (XmlFailed, cache)
    case XmlDocument(games) =>
      var run := RelabelAll(m, threshold, store, resolve, cache, XmlQueries(games));
      if run.aborted then (XmlFailed, run.cache)
      else
        (XmlConverted(RelabelGames(games, run.outcomes), CountsOf(run.outcomes), XmlSaveName(xmlPath)), run.cache)
  }

  /** A converted XML playlist keeps every game and every path; games
      lacking a `name` or `path` element are left as they are and are not
      counted; the total is the number of the other games, and each of them
      is counted once as converted, skipped or no-match. */
  lemma ConvertXmlAccounts(m: Metrics, threshold: int, store: CsvStore, resolve: string -> Option<string>, cache: map<string, Mapping>,
                           xmlPath: string, games: seq<Game>)
    requires CacheValid(cache)
    ensures var r := ConvertXmlSpec(m, threshold, store, resolve, cache, xmlPath, XmlDocument(games)).0;
      r.XmlConverted? ==>
        && |r.games| == |games|
        && r.counts.total == r.counts.converted + r.counts.skipped + r.counts.noMatch
        && r.counts.total == |Filter(games, Complete)|
        && (forall i :: 0 <= i < |games| ==> r.games[i].path == games[i].path)
        && (forall i :: 0 <= i < |games| && !Complete(games[i]) ==> r.games[i] == games[i])
  {
    var qs := XmlQueries(games);
    var run := RelabelAll(m, threshold, store, resolve, cache, qs);
    RelabelAllShape(m, threshold, store, resolve, cache, qs);
    if !run.aborted {
      CountsOfCountsComplete(games, run.outcomes);
    }
  }

  function Complete(g: Game): bool { g.name.Some? && g.path.Some? }

  lemma {:induction false} CountsOfCountsComplete(games: seq<Game>, outs: seq<ItemOutcome>)
    requires |outs| == |games|
    requires forall i :: 0 <= i < |games| ==> (outs[i] == Ignored <==> !Complete(games[i]))
    ensures CountsOf(outs).total == |Filter(games, Complete)|
  {
    if games != [] {
      var n := |games| - 1;
      var gs, os := games[..n], outs[..n];
      forall i | 0 <= i < n
        ensures os[i] == Ignored <==> !Complete(gs[i])
      {
        assert os[i] == outs[i] && gs[i] == games[i];
      }
      CountsOfCountsComplete(gs, os);
      assert CountsOf(outs).total == CountsOf(os).total + if outs[n] == Ignored then 0 else 1;
      FilterSnoc(games, n, Complete);
      assert games[..n + 1] == games;
    }
  }

  /** The part of a loop's `try` after its tests, for a file whose table
      is `csv`: `load_mapping`, the matcher, the unique name and the move. */
  method MatchAndCommit(mapper: CsvMapper, task: RenameJob, csv: string, folder: set<string>,
                        filename: string, name: string, ext: string) returns (o: Outcome, after: set<string>)
    modifies mapper
    ensures (o, after, mapper.cache) == MatchStep(task, csv, folder, old(mapper.cache), filename, name, ext)
  {
    var loaded := mapper.LoadMapping(csv, task.store);
    if loaded.Failure? {
      return Failed, folder;
    }
    var mp := loaded.value;
    var res := Match(task.m, Clean(name), mp.cnList, task.threshold);
    var eng: Option<string> := None;
    if res.found.Some? && res.found.value != [] {
      var e := Get(mp.cnToEng, res.found.value);
      if e.Some? && e.value != [] {
        eng := e;
      }
    }
    assert eng == MatchedEnglish(task.m, task.threshold, mp, name);
    if eng.None? {
      return Skipped, folder;
    }
    var target := Allocate(folder, eng.value + ext);
    if !task.commit {
      return Renamed(target), folder;
    }
    if filename in task.failing {
      return Failed, folder;
    }
    return Renamed(target), folder - {filename} + {target};
  }

  /** One playlist item or game once its table is known: `load_mapping`
      and the scan for the best label. `None` is an exception from
      `load_mapping`. */
  method RelabelOnTable(mapper: CsvMapper, m: Metrics, threshold: int, store: CsvStore, title: string, table: Option<string>) returns (o: Option<ItemOutcome>)
    requires CacheValid(mapper.cache)
    modifies mapper
    ensures CacheValid(mapper.cache)
    ensures (o, mapper.cache) == RelabelWith(m, threshold, store, old(mapper.cache), title, table)
  {
    if table.None? {
      return Some(NoMatch);
    }
    var loaded := mapper.LoadMapping(table.value, store);
    if loaded.Failure? {
      return None;
    }
    var best := FindBestLabel(m, title, loaded.value, threshold);
    if best.found.Some? {
      return Some(Relabelled(best.found.value));
    }
    return Some(Kept);
  }

  /** How far the loop over the items has got: the first `i` items are
      relabelled by their outcomes, the rest untouched. */
  ghost predicate LplProgress(m: Metrics, threshold: int, store: CsvStore, resolve: string -> Option<string>,
                              cache0: map<string, Mapping>, items0: seq<LplItem>,
                              i: nat, items: seq<LplItem>, outs: seq<ItemOutcome>, cache: map<string, Mapping>)
  {
    && i <= |items0| && |items| == |items0| && CacheValid(cache0)
    && RelabelAll(m, threshold, store, resolve, cache0, LplQueries(items0)[..i]) == Relabelling(outs, false, cache)
    && (forall k :: 0 <= k < i ==> items[k] == RelabelItem(items0[k], outs[k]))
    && (forall k :: i <= k < |items| ==> items[k] == items0[k])
  }

  /** The loop over all the items is the loop over the queries. */
  lemma LplProgressDone(m: Metrics, threshold: int, store: CsvStore, resolve: string -> Option<string>,
                        cache0: map<string, Mapping>, items0: seq<LplItem>,
                        items: seq<LplItem>, outs: seq<ItemOutcome>, cache: map<string, Mapping>)
    requires LplProgress(m, threshold, store, resolve, cache0, items0, |items0|, items, outs, cache)
    ensures RelabelAll(m, threshold, store, resolve, cache0, LplQueries(items0)) == Relabelling(outs, false, cache)
    ensures |outs| == |items0| && items == RelabelItems(items0, outs)
  {
    assert LplQueries(items0)[..|items0|] == LplQueries(items0);
  }

  /** The body of the loop for item `i`, whose table is `table`. */
  method ConvertItemAt(mapper: CsvMapper, m: Metrics, threshold: int, store: CsvStore, ghost resolve: string -> Option<string>,
                       ghost cache0: map<string, Mapping>, ghost items0: seq<LplItem>,
                       i: nat, items: seq<LplItem>, ghost outs: seq<ItemOutcome>, table: Option<string>)
    returns (o: Option<ItemOutcome>, items': seq<LplItem>, ghost outs': seq<ItemOutcome>)
    requires i < |items0| && CacheValid(mapper.cache)
    requires LplProgress(m, threshold, store, resolve, cache0, items0, i, items, outs, mapper.cache)
    requires table == resolve(GetOr(items0[i].path))
    modifies mapper
    ensures CacheValid(mapper.cache)
    ensures o.None? ==> RelabelAll(m, threshold, store, resolve, cache0, LplQueries(items0)) == Relabelling(outs, true, mapper.cache)
    ensures o.Some? ==> outs' == outs + [o.value] && LplProgress(m, threshold, store, resolve, cache0, items0, i + 1, items', outs', mapper.cache)
  {
    ghost var qs := LplQueries(items0);
    ghost var cache := mapper.cache;
    o := RelabelOnTable(mapper, m, threshold, store, GetOr(items[i].title), table);
    assert qs[i] == Some((GetOr(items[i].title), GetOr(items[i].path)));
    RelabelProgress(m, threshold, store, resolve, cache0, qs, i, outs, cache, o, mapper.cache);
    if o.None? {
      return o, items, outs;
    }
    LplItemsStep(items0, items, outs, o.value);
    outs' := outs + [o.value];
    items' := items[i := RelabelItem(items[i], o.value)];
  }

  /** Writing item `i`'s label extends the relabelled prefix by one. */
  lemma LplItemsStep(items0: seq<LplItem>, items: seq<LplItem>, outs: seq<ItemOutcome>, o: ItemOutcome)
    requires |outs| < |items0| == |items|
    requires forall k :: 0 <= k < |outs| ==> items[k] == RelabelItem(items0[k], outs[k])
    requires forall k :: |outs| <= k < |items| ==> items[k] == items0[k]
    ensures var i, items', outs' := |outs|, items[|outs| := RelabelItem(items[|outs|], o)], outs + [o];
      && (forall k :: 0 <= k < i + 1 ==> items'[k] == RelabelItem(items0[k], outs'[k]))
      && (forall k :: i + 1 <= k < |items'| ==> items'[k] == items0[k])
  {
  }

  /** How far the loop over the games has got: the first `i` games are
      relabelled by their outcomes, the rest untouched. */
  ghost predicate XmlProgress(m: Metrics, threshold: int, store: CsvStore, resolve: string -> Option<string>,
                              cache0: map<string, Mapping>, games0: seq<Game>,
                              i: nat, games: seq<Game>, outs: seq<ItemOutcome>, cache: map<string, Mapping>)
  {
    && i <= |games0| && |games| == |games0| && CacheValid(cache0)
    && RelabelAll(m, threshold, store, resolve, cache0, XmlQueries(games0)[..i]) == Relabelling(outs, false, cache)
    && (forall k :: 0 <= k < i ==> games[k] == RelabelGame(games0[k], outs[k]))
    && (forall k :: i <= k < |games| ==> games[k] == games0[k])
  }

  /** The body of the loop for game `i`, whose table (when it has both
      elements) is `table`. */
  method ConvertGameAt(mapper: CsvMapper, m: Metrics, threshold: int, store: CsvStore, ghost resolve: string -> Option<string>,
                       ghost cache0: map<string, Mapping>, ghost games0: seq<Game>,
                       i: nat, games: seq<Game>, ghost outs: seq<ItemOutcome>, table: Option<string>)
    returns (o: Option<ItemOutcome>, games': seq<Game>, ghost outs': seq<ItemOutcome>)
    requires i < |games0| && CacheValid(mapper.cache)
    requires XmlProgress(m, threshold, store, resolve, cache0, games0, i, games, outs, mapper.cache)
    requires Complete(games0[i]) ==> table == resolve(games0[i].path.value)
    modifies mapper
    ensures CacheValid(mapper.cache)
    ensures o.None? ==> RelabelAll(m, threshold, store, resolve, cache0, XmlQueries(games0)) == Relabelling(outs, true, mapper.cache)
    ensures o.Some? ==> outs' == outs + [o.value] && XmlProgress(m, threshold, store, resolve, cache0, games0, i + 1, games', outs', mapper.cache)
  {
    ghost var qs := XmlQueries(games0);
    ghost var cache := mapper.cache;
    if Complete(games[i]) {
      o := RelabelOnTable(mapper, m, threshold, store, games[i].name.value, table);
      assert qs[i] == Some((games[i].name.value, games[i].path.value));
    } else {
      o := Some(Ignored);
    }
    RelabelProgress(m, threshold, store, resolve, cache0, qs, i, outs, cache, o, mapper.cache);
    if o.None? {
      return o, games, outs;
    }
    XmlGamesStep(games0, games, outs, o.value);
    outs' := outs + [o.value];
    games' := games[i := RelabelGame(games[i], o.value)];
  }

  /** Writing game `i`'s label extends the relabelled prefix by one. */
  lemma XmlGamesStep(games0: seq<Game>, games: seq<Game>, outs: seq<ItemOutcome>, o: ItemOutcome)
    requires |outs| < |games0| == |games|
    requires forall k :: 0 <= k < |outs| ==> games[k] == RelabelGame(games0[k], outs[k])
    requires forall k :: |outs| <= k < |games| ==> games[k] == games0[k]
    ensures var i, games', outs' := |outs|, games[|outs| := RelabelGame(games[|outs|], o)], outs + [o];
      && (forall k :: 0 <= k < i + 1 ==> games'[k] == RelabelGame(games0[k], outs'[k]))
      && (forall k :: i + 1 <= k < |games'| ==> games'[k] == games0[k])
  {
  }

  /** The application object: whether a task is running, and its mapper. */
  class RenamerApp {
    var running: bool
    const mapper: CsvMapper

    /** Every cached table is well formed. */
    predicate Valid()
      reads mapper
    {
      CacheValid(mapper.cache)
    }

    constructor()
      ensures !running && fresh(mapper) && mapper.cache == map[] && Valid()
    {
      running := false;
      mapper := new CsvMapper();
    }

    /** `_validate_and_start`: `input` is what `int(...)` makes of the
        threshold field (`None` when it raises). A running task makes this
        a no-op; a threshold outside 0..100 is refused; otherwise the job
        is marked running, the cache is cleared and the threshold is what
        the job is started with. */
    method ValidateAndStart(input: Option<int>) returns (r: Option<int>)
      modifies this, mapper
      ensures old(running) ==> r.None? && running && mapper.cache == old(mapper.cache)
      ensures !old(running) && (input.None? || !(0 <= input.value <= 100)) ==>
                r.None? && !running && mapper.cache == old(mapper.cache)
      ensures !old(running) && input.Some? && 0 <= input.value <= 100 ==>
                r == input && running && mapper.cache == map[]
      ensures old(Valid()) ==> Valid()
    {
      if running {
        return None;
      }
      if input.None? || !(0 <= input.value <= 100) {
        return None;
      }
      running := true;
      mapper.ClearCache();
      return input;
    }

    /** The `try` of the rename and preview loops for one regular file,
        with the mapper's cache as the state it changes. */
    method HandleRom(job: RomJob, folder: set<string>, filename: string) returns (o: Outcome, after: set<string>)
      modifies mapper
      ensures (o, after, mapper.cache) == RomStep(job, folder, old(mapper.cache), filename)
    {
      var (name, ext) := SplitExt(filename);
      if Lower(ext) !in job.exts {
        return WrongExt, folder;
      }
      if !IsChineseFilename(name) {
        return English, folder;
      }
      o, after := MatchAndCommit(mapper, job.task, job.csv, folder, filename, name, ext);
    }

    /** `_preview_roms` (commit false) and `_rename_roms` (commit true):
        the report and the folder afterwards; the job ends. */
    method RunRoms(m: Metrics, threshold: int, platform: string, store: CsvStore, commit: bool, failing: set<string>,
                   folder: set<string>, entries: seq<Entry>) returns (report: RunReport, after: set<string>)
      modifies this, mapper
      ensures (report, after, mapper.cache) == RunRomsSpec(m, threshold, platform, store, commit, failing, folder, old(mapper.cache), entries)
      ensures !running
    {
      running := false;
      var exts := GetPlatformExtensions(platform);
      if exts == [] {
        return NoPlatform, folder;
      }
      var csv := GetCsvPath(platform, store);
      if csv.None? {
        return NoTable, folder;
      }
      var outcomes, stats;
      outcomes, stats, after := SweepFolder(RomJob(RenameJob(m, threshold, store, commit, failing), exts, csv.value), folder, entries);
      return Finished(outcomes, stats), after;
    }

    /** `for filename in os.listdir(folder)`: entries that are not regular
        files are passed over, every other one is handled and counted. */
    method SweepFolder(job: RomJob, folder: set<string>, entries: seq<Entry>) returns (outcomes: seq<Outcome>, stats: Tally, after: set<string>)
      modifies mapper
      ensures SweepRoms(job, folder, old(mapper.cache), entries) == Sweep(after, mapper.cache, outcomes)
      ensures stats == TallyOf(outcomes)
    {
      ghost var cache0 := mapper.cache;
      outcomes, stats, after := [], NoFiles, folder;
      for i := 0 to |entries|
        invariant SweepRoms(job, folder, cache0, entries[..i]) == Sweep(after, mapper.cache, outcomes)
        invariant stats == TallyOf(outcomes)
      {
        assert entries[..i + 1][..i] == entries[..i];
        if entries[i].isFile {
          var o;
          o, after := HandleRom(job, after, entries[i].name);
          ghost var before := outcomes;
          outcomes := outcomes + [o];
          assert outcomes[..|outcomes| - 1] == before;
          stats := Bump(stats, o);
        }
      }
      assert entries[..|entries|] == entries;
    }

    /** The table for a playlist entry's path: the platform scan and
        `get_csv_path`. */
    method TableOf(store: CsvStore, path: string) returns (table: Option<string>)
      ensures table == ItemTable(store)(path)
    {
      var k := FindPlatform(Lower(Suffix(path)));
      ItemTableIsGetCsvPath(store, path);
      if k.None? {
        return None;
      }
      table := GetCsvPath(PlatformConfig[k.value].name, store);
    }

    /** `_convert_lpl`: every item is looked up and relabelled in place and
        counted; a table that fails to load ends the conversion. */
    method ConvertLpl(m: Metrics, threshold: int, store: CsvStore, lplPath: string, read: LplRead) returns (report: LplReport)
      requires Valid()
      modifies this, mapper
      ensures Valid() && !running
      ensures (report, mapper.cache) == ConvertLplSpec(m, threshold, store, ItemTable(store), old(mapper.cache), lplPath, read)
    {
      running := false;
      if read.LplUnreadable? {
        return LplFailed;
      }
      if read.items.None? {
        return LplMalformed;
      }
      var items, counts, ok := ConvertItems(m, threshold, store, read.items.value);
      if !ok {
        return LplFailed;
      }
      return LplConverted(items, counts, LplSaveName(lplPath));
    }

    /** The loop of `_convert_lpl` over `lpl['items']`; `stats['total']`
        is the number of items from the start. */
    method ConvertItems(m: Metrics, threshold: int, store: CsvStore, items0: seq<LplItem>)
      returns (items: seq<LplItem>, counts: ConvertCounts, ok: bool)
      requires Valid()
      modifies mapper
      ensures Valid()
      ensures var run := RelabelAll(m, threshold, store, ItemTable(store), old(mapper.cache), LplQueries(items0));
        && ok == !run.aborted && mapper.cache == run.cache
        && (ok ==> items == RelabelItems(items0, run.outcomes))
        && (ok ==> counts == CountsOf(run.outcomes).(total := |items0|))
    {
      items := items0;
      ghost var cache0 := mapper.cache;
      ghost var outs: seq<ItemOutcome> := [];
      var tally := ConvertCounts(0, 0, 0, 0);
      for i := 0 to |items|
        invariant LplProgress(m, threshold, store, ItemTable(store), cache0, items0, i, items, outs, mapper.cache)
        invariant Valid()
        invariant tally == CountsOf(outs)
      {
        var table := TableOf(store, GetOr(items[i].path));
        var o;
        o, items, outs := ConvertItemAt(mapper, m, threshold, store, ItemTable(store), cache0, items0, i, items, outs, table);
        if o.None? {
          return items, tally, false;
        }
        tally := CountItem(tally, o.value);
      }
      LplProgressDone(m, threshold, store, ItemTable(store), cache0, items0, items, outs, mapper.cache);
      return items, tally.(total := |items|), true;
    }

    /** `_convert_xml`: every game with both elements is looked up,
        relabelled in place and counted; a table that fails to load ends
        the conversion. */
    method ConvertXml(m: Metrics, threshold: int, store: CsvStore, xmlPath: string, read: XmlRead) returns (report: XmlReport)
      requires Valid()
      modifies this, mapper
      ensures Valid() && !running
      ensures (report, mapper.cache) == ConvertXmlSpec(m, threshold, store, ItemTable(store), old(mapper.cache), xmlPath, read)
    {
      running := false;
      if read.XmlUnreadable? {
        return XmlFailed;
      }
      var games, counts, ok := ConvertGames(m, threshold, store, read.games);
      if !ok {
        return XmlFailed;
      }
      return XmlConverted(games, counts, XmlSaveName(xmlPath));
    }

    /** The loop of `_convert_xml` over `root.findall('game')`. */
    method ConvertGames(m: Metrics, threshold: int, store: CsvStore, games0: seq<Game>)
      returns (games: seq<Game>, counts: ConvertCounts, ok: bool)
      requires Valid()
      modifies mapper
      ensures Valid()
      ensures var run := RelabelAll(m, threshold, store, ItemTable(store), old(mapper.cache), XmlQueries(games0));
        && ok == !run.aborted && mapper.cache == run.cache
        && (ok ==> games == RelabelGames(games0, run.outcomes))
        && (ok ==> counts == CountsOf(run.outcomes))
    {
      games := games0;
      ghost var cache0 := mapper.cache;
      ghost var outs: seq<ItemOutcome> := [];
      var tally := ConvertCounts(0, 0, 0, 0);
      for i := 0 to |games|
        invariant XmlProgress(m, threshold, store, ItemTable(store), cache0, games0, i, games, outs, mapper.cache)
        invariant Valid()
        invariant tally == CountsOf(outs)
      {
        var table := GameTable(store, games[i]);
        var o;
        o, games, outs := ConvertGameAt(mapper, m, threshold, store, ItemTable(store), cache0, games0, i, games, outs, table);
        if o.None? {
          return games, tally, false;
        }
        tally := CountItem(tally, o.value);
      }
      assert XmlQueries(games0)[..|games0|] == XmlQueries(games0);
      return games, tally, true;
    }

    /** The table for a game with both elements. */
    method GameTable(store: CsvStore, game: Game) returns (table: Option<string>)
      ensures Complete(game) ==> table == ItemTable(store)(game.path.value)
    {
      table := None;
      if Complete(game) {
        table := TableOf(store, game.path.value);
      }
    }
  }
}
