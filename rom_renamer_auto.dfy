/** `rom_renamer_auto.py`: the stand-alone renamer that picks its reference
    table by itself. It counts the extensions of the files in the ROM
    folder and maps the most common one to a table; failing that it looks
    for a platform keyword in the folder's name. It then renames every
    file to the English name of its best fuzzy match, scored by its own
    blend of similarity scores. The folder is the set of names in it, the
    directory of tables is the set of table file names that exist, and the
    names whose `os.rename` raises are a parameter. */
module RomRenamerAuto {
  import opened Wrappers
  import opened Seqs
  import opened Text
  import opened Paths
  import opened PyDict
  import opened Cleaner
  import opened Matcher
  import opened Mapper
  import opened UniqueName
  import opened Batch

  /** `EXTENSION_TO_CSV`. */
  const ExtensionToCsv: map<string, string> := map[
    ".gba" := "Nintendo - Game Boy Advance.csv",
    ".gbc" := "Nintendo - Game Boy Color.csv",
    ".gb" := "Nintendo - Game Boy.csv",
    ".3ds" := "Nintendo - New Nintendo 3DS.csv",
    ".cia" := "Nintendo - New Nintendo 3DS.csv",
    ".nds" := "Nintendo - Nintendo DS.csv",
    ".n64" := "Nintendo - Nintendo 64.csv",
    ".z64" := "Nintendo - Nintendo 64.csv",
    ".v64" := "Nintendo - Nintendo 64.csv",
    ".nes" := "Nintendo - Nintendo Entertainment System.csv",
    ".sfc" := "Nintendo - Super Nintendo Entertainment System.csv",
    ".smc" := "Nintendo - Super Nintendo Entertainment System.csv",
    ".wud" := "Nintendo - Wii U.csv",
    ".wux" := "Nintendo - Wii U.csv",
    ".wbfs" := "Nintendo - Wii.csv",
    ".iso" := "Nintendo - Wii.csv",
    ".cso" := "Sony - PlayStation Portable.csv",
    ".bin" := "Sony - PlayStation.csv",
    ".cue" := "Sony - PlayStation.csv"
  ]

  /** `FOLDER_NAME_TO_CSV`, in dict order: the keywords are tried in this
      order. */
  const FolderNameToCsv: seq<(string, string)> := [
    ("gba", "Nintendo - Game Boy Advance.csv"),
    ("game boy advance", "Nintendo - Game Boy Advance.csv"),
    ("gbc", "Nintendo - Game Boy Color.csv"),
    ("game boy color", "Nintendo - Game Boy Color.csv"),
    ("gb", "Nintendo - Game Boy.csv"),
    ("game boy", "Nintendo - Game Boy.csv"),
    ("3ds", "Nintendo - New Nintendo 3DS.csv"),
    ("nds", "Nintendo - Nintendo DS.csv"),
    ("n64", "Nintendo - Nintendo 64.csv"),
    ("nintendo 64", "Nintendo - Nintendo 64.csv"),
    ("nes", "Nintendo - Nintendo Entertainment System.csv"),
    ("snes", "Nintendo - Super Nintendo Entertainment System.csv"),
    ("super nintendo", "Nintendo - Super Nintendo Entertainment System.csv"),
    ("wii u", "Nintendo - Wii U.csv"),
    ("wiiu", "Nintendo - Wii U.csv"),
    ("wii", "Nintendo - Wii.csv"),
    ("psp", "Sony - PlayStation Portable.csv"),
    ("playstation portable", "Sony - PlayStation Portable.csv"),
    ("ps1", "Sony - PlayStation.csv"),
    ("psx", "Sony - PlayStation.csv"),
    ("playstation", "Sony - PlayStation.csv")
  ]

  const NesTable: string := "Nintendo - Nintendo Entertainment System.csv"

  /** The two rule tables `detect_csv_file` consults: by extension, and by
      keyword of the folder name in order. */
  datatype Rules = Rules(byExt: map<string, string>, byFolder: seq<(string, string)>)

  /** The rules of the program. */
  const AutoRules: Rules := Rules(ExtensionToCsv, FolderNameToCsv)

  // ---------------------------------------------------------------------
  // detect_csv_file

  /** The lower-cased, non-empty extensions of the regular files of the
      listing, in listing order: what the counting loop counts. */
  function FileExts(entries: seq<Entry>): (r: seq<string>)
    ensures forall k :: 0 <= k < |r| ==> r[k] != []
  {
    if entries == [] then []
    else
      var r := FileExts(entries[..|entries| - 1]);
      var e := entries[|entries| - 1];
      var ext := Lower(SplitExt(e.name).1);
      if e.isFile && ext != [] then r + [ext] else r
  }

  /** `ext_count.get(ext, 0)`. */
  function Tallied(d: Dict<string, nat>, k: string): nat {
    if k in d.values then d.values[k] else 0
  }

  /** `ext_count.get`, as the key of `max`. */
  function CountOf(d: Dict<string, nat>): string -> int {
    (k: string) => Tallied(d, k)
  }

  /** `ext_count[ext] = ext_count.get(ext, 0) + 1`, once per extension. */
  function ExtTally(exts: seq<string>): (d: Dict<string, nat>)
    ensures d.Valid()
  {
    if exts == [] then Empty()
    else
      var d := ExtTally(exts[..|exts| - 1]);
      var x := exts[|exts| - 1];
      Put(d, x, Tallied(d, x) + 1)
  }

  /** The dict counts every extension exactly as often as it occurs. */
  lemma {:induction false} ExtTallyCount(exts: seq<string>, x: string)
    ensures x in ExtTally(exts).values <==> x in exts
    ensures x in ExtTally(exts).values ==> ExtTally(exts).values[x] == Count(exts, x)
  {
    if exts != [] {
      var front, last := exts[..|exts| - 1], exts[|exts| - 1];
      assert exts == front + [last];
      ExtTallyCount(front, x);
      CountSnoc(front, last, x);
    }
  }

  /** The dict's keys are the extensions in order of first occurrence. */
  lemma {:induction false} ExtTallyKeys(exts: seq<string>)
    ensures ExtTally(exts).keys == Distinct(exts)
  {
    if exts != [] {
      var front, last := exts[..|exts| - 1], exts[|exts| - 1];
      assert exts == front + [last];
      ExtTallyKeys(front);
      ExtTallyCount(front, last);
      DistinctSnoc(front, last);
      KeyMember(ExtTally(front), last);
      assert last in Distinct(front) <==> last in front;
    }
  }

  /** `max(iterable, key=...)`: the first element whose key is the
      greatest. */
  function MaxIndex<T>(s: seq<T>, key: T -> int): (r: nat)
    requires s != []
    ensures r < |s|
    ensures forall j :: 0 <= j < |s| ==> key(s[j]) <= key(s[r])
    ensures forall j :: 0 <= j < r ==> key(s[j]) < key(s[r])
  {
    if |s| == 1 then 0
    else
      var b := MaxIndex(s[..|s| - 1], key);
      if key(s[|s| - 1]) > key(s[b]) then |s| - 1 else b
  }

  /** `max(ext_count, key=ext_count.get)`. */
  function MostCommon(d: Dict<string, nat>): string
    requires d.keys != []
  {
    d.keys[MaxIndex(d.keys, CountOf(d))]
  }

  /** The most common extension occurs in the listing, no extension occurs
      more often, and on a tie the one that appeared first wins. */
  lemma MostCommonIsMostFrequent(exts: seq<string>)
    requires exts != []
    ensures ExtTally(exts).keys != []
    ensures MostCommon(ExtTally(exts)) in exts
    ensures forall x :: x in exts ==> Count(exts, x) <= Count(exts, MostCommon(ExtTally(exts)))
    ensures forall j :: 0 <= j < |Distinct(exts)| && Distinct(exts)[j] == MostCommon(ExtTally(exts)) ==>
              forall i :: 0 <= i < j ==> Count(exts, Distinct(exts)[i]) < Count(exts, MostCommon(ExtTally(exts)))
  {
    ExtTallyKeys(exts);
    assert exts[0] in ExtTally(exts).keys;
    var e := MostCommon(ExtTally(exts));
    ExtTallyCount(exts, e);
    KeyMember(ExtTally(exts), e);
    forall x | x in exts
      ensures Count(exts, x) <= Count(exts, e)
    {
      MostCommonBeats(exts, x);
    }
    forall j, i | 0 <= i < j < |Distinct(exts)| && Distinct(exts)[j] == e
      ensures Count(exts, Distinct(exts)[i]) < Count(exts, e)
    {
      MostCommonComesFirst(exts, j, i);
    }
  }

  /** No extension occurs more often than the most common one. */
  lemma MostCommonBeats(exts: seq<string>, x: string)
    requires x in exts
    ensures ExtTally(exts).keys != []
    ensures Count(exts, x) <= Count(exts, MostCommon(ExtTally(exts)))
  {
    var d := ExtTally(exts);
    ExtTallyCount(exts, x);
    KeyMember(d, x);
    var k := MaxIndex(d.keys, CountOf(d));
    ExtTallyCount(exts, d.keys[k]);
    KeyMember(d, d.keys[k]);
    var j :| 0 <= j < |d.keys| && d.keys[j] == x;
    assert CountOf(d)(d.keys[j]) <= CountOf(d)(d.keys[k]);
  }

  /** An extension that first appears before the most common one occurs
      fewer times. */
  lemma MostCommonComesFirst(exts: seq<string>, j: nat, i: nat)
    requires exts != []
    requires i < j < |Distinct(exts)|
    ensures ExtTally(exts).keys != []
    ensures Distinct(exts)[j] == MostCommon(ExtTally(exts)) ==> Count(exts, Distinct(exts)[i]) < Count(exts, MostCommon(ExtTally(exts)))
  {
    var d := ExtTally(exts);
    ExtTallyKeys(exts);
    var k := MaxIndex(d.keys, CountOf(d));
    if d.keys[j] == d.keys[k] {
      assert j == k;
      ExtTallyCount(exts, d.keys[i]);
      KeyMember(d, d.keys[i]);
      ExtTallyCount(exts, d.keys[k]);
      KeyMember(d, d.keys[k]);
      assert CountOf(d)(d.keys[i]) < CountOf(d)(d.keys[k]);
    }
  }

  /** One more entry extends the counted extensions by its own, if any. */
  lemma FileExtsStep(entries: seq<Entry>, i: nat)
    requires i < |entries|
    ensures var ext, before, after := Lower(SplitExt(entries[i].name).1), FileExts(entries[..i]), FileExts(entries[..i + 1]);
      if entries[i].isFile && ext != [] then
        after != [] && after[..|after| - 1] == before && after[|after| - 1] == ext
      else after == before
  {
    assert entries[..i + 1][..i] == entries[..i];
  }

  /** One more entry bumps the count of its extension, if it has one. */
  lemma CountStep(entries: seq<Entry>, i: nat, counts: Dict<string, nat>, ext: string)
    requires i < |entries| && counts == ExtTally(FileExts(entries[..i]))
    requires ext == Lower(SplitExt(entries[i].name).1)
    ensures entries[i].isFile && ext != [] ==> ExtTally(FileExts(entries[..i + 1])) == Put(counts, ext, Tallied(counts, ext) + 1)
    ensures !(entries[i].isFile && ext != []) ==> ExtTally(FileExts(entries[..i + 1])) == counts
  {
    FileExtsStep(entries, i);
    if entries[i].isFile && ext != [] {
      TallyBump(FileExts(entries[..i]), FileExts(entries[..i + 1]), ext, counts);
    }
  }

  /** The count of the last extension goes up by one. */
  lemma TallyBump(before: seq<string>, after: seq<string>, x: string, counts: Dict<string, nat>)
    requires after != [] && after[..|after| - 1] == before && after[|after| - 1] == x
    requires counts == ExtTally(before)
    ensures ExtTally(after) == Put(counts, x, Tallied(counts, x) + 1)
  {
  }

  /** The counting loop of `detect_csv_file`. */
  method CountExtensions(entries: seq<Entry>) returns (counts: Dict<string, nat>)
    ensures counts == ExtTally(FileExts(entries))
  {
    counts := Empty();
    for i := 0 to |entries|
      invariant counts == ExtTally(FileExts(entries[..i]))
    {
      var (_, ext) := SplitExt(entries[i].name);
      ext := Lower(ext);
      CountStep(entries, i, counts, ext);
      if entries[i].isFile && ext != [] {
        counts := Put(counts, ext, Tallied(counts, ext) + 1);
      }
    }
    assert entries[..|entries|] == entries;
  }

  /** The keyword test of the folder-name fallback: the keyword occurs in
      the lower-cased folder name and its table exists. */
  function FolderHit(folderName: string, store: CsvStore): ((string, string)) -> bool {
    (p: (string, string)) => IsSubstring(p.0, folderName) && p.1 in store
  }

  /** The folder-name fallback: the table of the first keyword, in dict
      order, that occurs in the folder name and whose table exists. A
      keyword whose table is missing does not stop the scan. */
  function FolderMatch(keywords: seq<(string, string)>, folderName: string, store: CsvStore): (r: Option<string>)
    ensures r.Some? ==> r.value in store
    ensures r.None? <==> forall j :: 0 <= j < |keywords| ==> !FolderHit(folderName, store)(keywords[j])
  {
    match FirstIndex(keywords, FolderHit(folderName, store))
    case None => None
    case Some(i) => Some(keywords[i].1)
  }

  /** The `for keyword, csv_file in FOLDER_NAME_TO_CSV.items()` loop. */
  method ScanFolderName(keywords: seq<(string, string)>, folderName: string, store: CsvStore) returns (r: Option<string>)
    ensures r == FolderMatch(keywords, folderName, store)
  {
    var i := 0;
    while i < |keywords|
      invariant 0 <= i <= |keywords|
      invariant forall j :: 0 <= j < i ==> !FolderHit(folderName, store)(keywords[j])
    {
      var (keyword, csvFile) := keywords[i];
      if IsSubstring(keyword, folderName) && csvFile in store {
        assert FolderHit(folderName, store)(keywords[i]);
        FirstIndexIsOnlyCandidate(keywords, FolderHit(folderName, store), i);
        return Some(csvFile);
      }
      i := i + 1;
    }
    return None;
  }

  /** Why a table was chosen: the most common extension, the folder name
      alone (no extension to count), or the folder name after the most
      common extension had no rule. */
  datatype Basis = ByExtension(ext: string, count: nat) | ByFolderName | ByFolderNameAfter(ext: string)

  /** Why no table was chosen, one case per failing `return`. */
  datatype Miss = NoCsvDir | NoRoms | TableMissing(csv: string) | UnmappedExtension(ext: string)

  /** What `detect_csv_file` returns: the table (the path under the table
      directory, here its file name) with the reason for its choice, or
      `None` with the reason for the failure. */
  datatype Detection = Detected(csv: string, basis: Basis) | NotDetected(miss: Miss)

  /** `detect_csv_file(folder_path)` under `rules` (the program uses
      `AutoRules`): `csvDirExists` is whether the table directory exists;
      `entries` is the listing of the folder. */
  function DetectSpec(rules: Rules, csvDirExists: bool, store: CsvStore, folderPath: string, entries: seq<Entry>): (r: Detection)
    ensures !csvDirExists <==> r == NotDetected(NoCsvDir)
    ensures r.Detected? ==> r.csv in store
  {
    if !csvDirExists then NotDetected(NoCsvDir)
    else
      var counts := ExtTally(FileExts(entries));
      var folderName := Lower(Name(folderPath));
      if counts.keys == [] then
        match FolderMatch(rules.byFolder, folderName, store)
        case Some(csv) => Detected(csv, ByFolderName)
        case None => NotDetected(NoRoms)
      else
        var ext := MostCommon(counts);
        if ext in rules.byExt then
          var csv := rules.byExt[ext];
          if csv in store then Detected(csv, ByExtension(ext, Tallied(counts, ext)))
          else NotDetected(TableMissing(csv))
        else
          match FolderMatch(rules.byFolder, folderName, store)
          case Some(csv) => Detected(csv, ByFolderNameAfter(ext))
          case None => NotDetected(UnmappedExtension(ext))
  }

  /** The counts are empty exactly when no regular file has an extension. */
  lemma NoCountsWithoutExtensions(exts: seq<string>)
    ensures ExtTally(exts).keys == [] <==> exts == []
  {
    ExtTallyKeys(exts);
    if exts != [] {
      assert exts[0] in Distinct(exts);
    }
  }

  /** The most common extension decides when a rule maps it: the table is
      its rule's table if that exists and there is no table otherwise, and
      the folder name is not consulted; the reported count is the number of
      files with that extension. */
  lemma DetectPrefersExtension(rules: Rules, csvDirExists: bool, store: CsvStore, folderPath: string, entries: seq<Entry>)
    requires csvDirExists && FileExts(entries) != []
    ensures ExtTally(FileExts(entries)).keys != []
    ensures var exts := FileExts(entries);
      var e := MostCommon(ExtTally(exts));
      e in rules.byExt ==>
        DetectSpec(rules, csvDirExists, store, folderPath, entries) ==
          if rules.byExt[e] in store then Detected(rules.byExt[e], ByExtension(e, Count(exts, e)))
          else NotDetected(TableMissing(rules.byExt[e]))
  {
    var exts := FileExts(entries);
    MostCommonIsMostFrequent(exts);
    ExtTallyCount(exts, MostCommon(ExtTally(exts)));
  }

  /** The folder name is consulted only when no file has an extension or
      the most common one has no rule, and then its first hit decides. */
  lemma DetectFallsBackOnFolderName(rules: Rules, csvDirExists: bool, store: CsvStore, folderPath: string, entries: seq<Entry>)
    requires csvDirExists
    ensures var r := DetectSpec(rules, csvDirExists, store, folderPath, entries);
      var hit := FolderMatch(rules.byFolder, Lower(Name(folderPath)), store);
      && (FileExts(entries) == [] ==>
            r == match hit case Some(csv) => Detected(csv, ByFolderName) case None => NotDetected(NoRoms))
      && (r.Detected? && r.basis.ByFolderNameAfter? ==>
            FileExts(entries) != [] && r.basis.ext !in rules.byExt && hit == Some(r.csv))
      && (r == NotDetected(NoRoms) ==> FileExts(entries) == [] && hit.None?)
  {
    var exts := FileExts(entries);
    NoCountsWithoutExtensions(exts);
    if exts == [] {
      assert ExtTally(exts).keys == [];
    } else {
      assert ExtTally(exts).keys != [];
      var ext := MostCommon(ExtTally(exts));
      if ext in rules.byExt {
        var r := DetectSpec(rules, csvDirExists, store, folderPath, entries);
        assert r.Detected? ==> r.basis.ByExtension?;
      }
    }
  }

  /** `detect_csv_file`, with its two loops. */
  method DetectCsvFile(rules: Rules, csvDirExists: bool, store: CsvStore, folderPath: string, entries: seq<Entry>) returns (r: Detection)
    ensures r == DetectSpec(rules, csvDirExists, store, folderPath, entries)
  {
    if !csvDirExists {
      return NotDetected(NoCsvDir);
    }
    var counts := CountExtensions(entries);
    var folderName := Lower(Name(folderPath));
    if counts.keys == [] {
      var hit := ScanFolderName(rules.byFolder, folderName, store);
      if hit.Some? {
        return Detected(hit.value, ByFolderName);
      }
      return NotDetected(NoRoms);
    }
    var ext := MostCommon(counts);
    if ext in rules.byExt {
      var csv := rules.byExt[ext];
      if csv in store {
        return Detected(csv, ByExtension(ext, counts.values[ext]));
      }
      return NotDetected(TableMissing(csv));
    }
    var hit := ScanFolderName(rules.byFolder, folderName, store);
    if hit.Some? {
      return Detected(hit.value, ByFolderNameAfter(ext));
    }
    return NotDetected(UnmappedExtension(ext));
  }

  /** A keyword holding a character the name lacks does not occur in it. */
  lemma {:induction false} MissingCharNotSubstring(needle: string, hay: string, c: char)
    requires c in needle && c !in hay
    ensures !IsSubstring(needle, hay)
    decreases |hay|
  {
    if hay != [] {
      assert forall k :: 0 <= k < |hay[1..]| ==> hay[1..][k] == hay[k + 1];
      MissingCharNotSubstring(needle, hay[1..], c);
    }
  }

  /** None of the first ten keywords occurs in `snes`. */
  lemma EarlyKeywordsMissSnes(j: nat)
    requires j < 10
    ensures !IsSubstring(FolderNameToCsv[j].0, "snes")
  {
    var c := if j < 6 then 'g' else if j == 6 then '3' else if j == 7 then 'd' else if j == 8 then '6' else 'i';
    assert c !in "snes";
    if j == 0 { assert FolderNameToCsv[0].0[0] == c; }
    else if j == 1 { assert FolderNameToCsv[1].0[0] == c; }
    else if j == 2 { assert FolderNameToCsv[2].0[0] == c; }
    else if j == 3 { assert FolderNameToCsv[3].0[0] == c; }
    else if j == 4 { assert FolderNameToCsv[4].0[0] == c; }
    else if j == 5 { assert FolderNameToCsv[5].0[0] == c; }
    else if j == 6 { assert FolderNameToCsv[6].0[0] == c; }
    else if j == 7 { assert FolderNameToCsv[7].0[1] == c; }
    else if j == 8 { assert FolderNameToCsv[8].0[1] == c; }
    else { assert FolderNameToCsv[9].0[1] == c; }
    MissingCharNotSubstring(FolderNameToCsv[j].0, "snes", c);
  }

  lemma NesKeyword()
    ensures |FolderNameToCsv| == 21 && FolderNameToCsv[10] == ("nes", NesTable)
  {
  }

  /** The keywords are tried in order and `nes` occurs in `snes`: a folder
      named `SNES` gets the NES table whenever that table exists, before the
      `snes` keyword is reached. */
  lemma SnesFolderGetsNesTable(store: CsvStore)
    requires NesTable in store
    ensures FolderMatch(FolderNameToCsv, "snes", store) == Some(NesTable)
  {
    var hit := FolderHit("snes", store);
    NesKeyword();
    assert "snes"[1..] == "nes";
    assert hit(FolderNameToCsv[10]);
    forall j | 0 <= j < 10
      ensures !hit(FolderNameToCsv[j])
    {
      EarlyKeywordsMissSnes(j);
    }
    FirstIndexIsOnlyCandidate(FolderNameToCsv, hit, 10);
  }

  // ---------------------------------------------------------------------
  // read_mapping

  /** What `read_mapping` returns: `{cn: eng}` over all rows, the cn
      column and the English column, each in row order. */
  datatype AutoMapping = AutoMapping(mapping: Dict<string, string>, cn: seq<string>, eng: seq<string>)

  function AnyRow(r: Row): bool { true }

  /** `read_mapping(csv_path)`: a table that cannot be read (with either
      encoding) fails, one with fewer than two columns raises the
      `ValueError`; otherwise every row counts, empty cells included. */
  function ReadMapping(read: CsvRead): (r: Result<AutoMapping, LoadError>)
    ensures read.Table? <==> r.Success?
    ensures read == TooFewColumns <==> r == Failure(NeedsTwoColumns)
    ensures read.Table? ==> r.value.cn == CnColumn(read.rows) && |r.value.eng| == |read.rows|
    ensures read.Table? ==> forall i :: 0 <= i < |read.rows| ==> r.value.eng[i] == read.rows[i].eng
    ensures read.Table? ==> r.value.mapping.Valid()
  {
    match read
    case Unreadable => Failure(ReadFailed)
    case TooFewColumns => Failure(NeedsTwoColumns)
    case Table(rows) => Success(AutoMapping(Collect(rows, CnOf, EngOf, AnyRow), CnColumn(rows), KeysOf(rows, EngOf)))
  }

  /** Every cn cell, the empty one included, is a key of the mapping, and
      each key maps to the English name of the last row carrying it. So
      `mapping.get(match)` for a name from the cn list never misses. */
  lemma ReadMappingLastRowWins(rows: seq<Row>, c: string)
    ensures var mp := ReadMapping(Table(rows)).value;
      && (c in mp.mapping.values <==> c in mp.cn)
      && (c in mp.mapping.values ==> exists i :: LastKeptWithKey(rows, CnOf, AnyRow, c, i) && mp.mapping.values[c] == rows[i].eng)
  {
    var mp := ReadMapping(Table(rows)).value;
    if c in mp.mapping.values {
      CollectLastWins(rows, CnOf, EngOf, AnyRow, c);
      var i :| LastKeptWithKey(rows, CnOf, AnyRow, c, i) && mp.mapping.values[c] == rows[i].eng;
      assert mp.cn[i] == c;
    }
    if c in mp.cn {
      var i :| 0 <= i < |mp.cn| && mp.cn[i] == c;
      assert AnyRow(rows[i]) && CnOf(rows[i]) == c;
    }
  }

  // ---------------------------------------------------------------------
  // smart_match

  /** The partial-ratio weight: 0.2 when the candidate is shorter than half
      the query, otherwise 0.35. */
  function PartialWeightOf(q: string, c: string): (r: real)
    ensures r == 0.2 <==> 2 * |c| < |q|
    ensures r == 0.2 || r == 0.35
  {
    if (|c| as real) < (|q| as real) * 0.5 then 0.2 else 0.35
  }

  function AutoWeightedSum(m: Metrics, q: string, c: string): real {
    m.tokenSetRatio(q, c) * 0.35 + m.ratio(q, c) * 0.25
      + m.partialRatio(q, c) * PartialWeightOf(q, c) + m.tokenSortRatio(q, c) * 0.15
  }

  /** The composite score of one candidate in `smart_match`, damped by the
      length ratio and by 0.7 for a shorter candidate that occurs in the
      query. */
  function AutoComposite(m: Metrics, q: string, c: string): real {
    AutoWeightedSum(m, q, c) * m.power(LenRatio(q, c)) * (if Penalised(q, c) then 0.7 else 1.0)
  }

  function AutoCompositeOf(m: Metrics, q: string): string -> real {
    c => AutoComposite(m, q, c)
  }

  /** The weights add up to 1.1 when the partial weight is 0.35, so the
      composite lies between 0 and 110. */
  lemma AutoCompositeBounds(m: Metrics, q: string, c: string)
    requires ValidScorers(m)
    ensures 0.0 <= AutoComposite(m, q, c) <= AutoWeightedSum(m, q, c) <= 110.0
  {
    var w := AutoWeightedSum(m, q, c);
    assert 0.0 <= m.tokenSetRatio(q, c) <= 100.0 && 0.0 <= m.ratio(q, c) <= 100.0;
    assert 0.0 <= m.partialRatio(q, c) <= 100.0 && 0.0 <= m.tokenSortRatio(q, c) <= 100.0;
    var d := m.power(LenRatio(q, c));
    var f := if Penalised(q, c) then 0.7 else 1.0;
    assert 0.0 <= d <= 1.0 && 0.0 <= f <= 1.0;
    ScaleDown(w, d, f);
    assert AutoComposite(m, q, c) == w * d * f;
  }

  /** What `smart_match(query, choices, threshold)` returns. */
  function AutoMatchSpec(m: Metrics, query: string, choices: seq<string>, threshold: int): (r: MatchResult)
    ensures query == [] || choices == [] ==> r == MatchResult(None, 0.0)
    ensures r.found.Some? ==> r.score >= threshold as real && r.score > 0.0
    ensures r.found.None? ==> r.score < threshold as real || r.score == 0.0
  {
    if query == [] || choices == [] then MatchResult(None, 0.0)
    else
      var candidates := m.extract(query, choices, ShortlistLimit);
      var b := Best(candidates, AutoCompositeOf(m, query));
      if b.score >= threshold as real then
        MatchResult(match b.index case None => None case Some(k) => Some(candidates[k]), b.score)
      else MatchResult(None, b.score)
  }

  /** `smart_match`, the loop keeping the running best. */
  method AutoMatch(m: Metrics, query: string, choices: seq<string>, threshold: int) returns (r: MatchResult)
    ensures r == AutoMatchSpec(m, query, choices, threshold)
  {
    if query == [] || choices == [] {
      return MatchResult(None, 0.0);
    }
    var candidates := m.extract(query, choices, ShortlistLimit);
    var bestMatch: Option<string> := None;
    var bestScore := 0.0;
    ghost var bestIndex: Option<nat> := None;
    for i := 0 to |candidates|
      invariant Best(candidates[..i], AutoCompositeOf(m, query)) == Choice(bestIndex, bestScore)
      invariant bestIndex.None? ==> bestMatch.None?
      invariant bestIndex.Some? ==> bestIndex.value < i && bestMatch == Some(candidates[bestIndex.value])
    {
      var candidate := candidates[i];
      var composite := AutoComposite(m, query, candidate);
      assert candidates[..i + 1][..i] == candidates[..i];
      if composite > bestScore {
        bestScore, bestMatch := composite, Some(candidate);
        bestIndex := Some(i);
      }
    }
    assert candidates[..|candidates|] == candidates;
    if bestScore >= threshold as real {
      r := MatchResult(bestMatch, bestScore);
    } else {
      r := MatchResult(None, bestScore);
    }
  }

  /** A returned match is one of the choices and scores the returned score;
      the score is the greatest composite of the shortlist and lies in
      [0, 110]. */
  lemma {:induction false} AutoMatchIsBestChoice(m: Metrics, query: string, choices: seq<string>, threshold: int)
    requires ValidMetrics(m)
    ensures var r := AutoMatchSpec(m, query, choices, threshold);
      && 0.0 <= r.score <= 110.0
      && (r.found.Some? ==> r.found.value in choices && AutoComposite(m, query, r.found.value) == r.score)
      && (query != [] ==> forall c :: c in m.extract(query, choices, ShortlistLimit) ==> AutoComposite(m, query, c) <= r.score)
  {
    var r := AutoMatchSpec(m, query, choices, threshold);
    if query != [] && choices != [] {
      var candidates := m.extract(query, choices, ShortlistLimit);
      var b := Best(candidates, AutoCompositeOf(m, query));
      if b.index.Some? {
        var c := candidates[b.index.value];
        AutoCompositeBounds(m, query, c);
        assert c in multiset(candidates);
        if r.found.Some? {
          assert r.found.value == c;
        }
      }
      forall c | c in candidates
        ensures AutoComposite(m, query, c) <= r.score
      {
        var k :| 0 <= k < |candidates| && candidates[k] == c;
        assert AutoCompositeOf(m, query)(candidates[k]) <= b.score;
      }
    }
  }

  /** A query that is itself the only choice scores 110: the full partial
      weight applies, the length ratio is 1 and there is no penalty. */
  lemma AutoIdenticalChoiceScores110(m: Metrics, query: string, threshold: int)
    requires ValidMetrics(m) && ScoresSelf(m, query)
    requires query != [] && threshold <= 110
    ensures AutoMatchSpec(m, query, [query], threshold) == MatchResult(Some(query), 110.0)
  {
    var candidates := m.extract(query, [query], ShortlistLimit);
    assert |candidates| == 1;
    assert candidates[0] in multiset([query]);
    assert candidates == [query];
    assert PartialWeightOf(query, query) == 0.35;
    assert AutoComposite(m, query, query) == 110.0;
    assert Best(candidates, AutoCompositeOf(m, query)) == Choice(Some(0), 110.0) by {
      assert candidates[..0] == [];
    }
  }

  // ---------------------------------------------------------------------
  // run_renamer

  /** What the rename loop works with: the matcher, the threshold, and the
      names whose `os.rename` raises. */
  datatype AutoTask = AutoTask(m: Metrics, threshold: int, failing: set<string>)

  /** The English name to rename to: the matcher returned a non-empty name
      and its entry in the mapping is non-empty. */
  function AutoEnglish(task: AutoTask, mp: AutoMapping, name: string): (r: Option<string>)
    ensures r.Some? ==> r.value != []
  {
    var found := AutoMatchSpec(task.m, CleanFilename(name), mp.cn, task.threshold).found;
    if found.Some? && found.value != [] then
      match Get(mp.mapping, found.value)
      case None => None
      case Some(eng) => if eng != [] then Some(eng) else None
    else None
  }

  /** The buckets of this loop: there is no extension, language or table
      test. */
  predicate AutoOutcome(o: Outcome) {
    o == Skipped || o == Failed || o.Renamed?
  }

  /** The `try` of `run_renamer` for one regular file: its bucket and the
      folder afterwards. */
  function AutoStep(task: AutoTask, mp: AutoMapping, folder: set<string>, filename: string): (r: (Outcome, set<string>))
    ensures AutoOutcome(r.0)
  {
    var (name, ext) := SplitExt(filename);
    match AutoEnglish(task, mp, name)
    case None => (Skipped, folder)
    case Some(eng) => Commit(folder, task.failing, true, filename, eng + ext)
  }

  /** A file is renamed exactly when the matcher finds a non-empty name
      with a non-empty English entry and the move does not raise; the
      target is the free name derived from the English name and the
      original extension, the source leaves the folder and the target
      enters it. Any other file is skipped or counted as an error, and
      leaves the folder as it was. */
  lemma AutoStepRenamesOnlyMatches(task: AutoTask, mp: AutoMapping, folder: set<string>, filename: string)
    ensures var (name, ext) := SplitExt(filename);
      var eng := AutoEnglish(task, mp, name);
      var r := AutoStep(task, mp, folder, filename);
      && (r.0 == Skipped || r.0 == Failed || r.0.Renamed?)
      && (r.0 == Skipped <==> eng.None?)
      && (r.0 == Failed <==> eng.Some? && filename in task.failing)
      && (r.0.Renamed? ==> r.0.target == Allocation(folder, eng.value + ext) && r.0.target !in folder
                           && r.1 == folder - {filename} + {r.0.target})
      && (!r.0.Renamed? ==> r.1 == folder)
  {
  }

  /** The English name comes from the table: it is the English cell of the
      last row whose cn cell is the name the matcher returned, which is one
      of the table's cn cells and reached the threshold. */
  lemma AutoEnglishFromTable(task: AutoTask, rows: seq<Row>, name: string)
    requires ValidMetrics(task.m)
    requires AutoEnglish(task, ReadMapping(Table(rows)).value, name).Some?
    ensures var r := AutoMatchSpec(task.m, CleanFilename(name), CnColumn(rows), task.threshold);
      && r.found.Some? && r.found.value in CnColumn(rows) && r.score >= task.threshold as real
      && exists i :: LastKeptWithKey(rows, CnOf, AnyRow, r.found.value, i)
                     && rows[i].eng == AutoEnglish(task, ReadMapping(Table(rows)).value, name).value
  {
    var mp := ReadMapping(Table(rows)).value;
    var r := AutoMatchSpec(task.m, CleanFilename(name), mp.cn, task.threshold);
    AutoMatchIsBestChoice(task.m, CleanFilename(name), mp.cn, task.threshold);
    ReadMappingLastRowWins(rows, r.found.value);
  }

  /** The folder and the outcomes a rename loop threads through. */
  datatype Pass = Pass(folder: set<string>, outcomes: seq<Outcome>)

  /** `for filename in files`: only regular files are listed, and each gets
      exactly one outcome, in order. */
  function AutoSweep(task: AutoTask, mp: AutoMapping, folder: set<string>, entries: seq<Entry>): (r: Pass)
    ensures |r.outcomes| == |Filter(entries, IsFile)|
  {
    if entries == [] then Pass(folder, [])
    else
      var p := AutoSweep(task, mp, folder, entries[..|entries| - 1]);
      var e := entries[|entries| - 1];
      if !e.isFile then p
      else
        var step := AutoStep(task, mp, p.folder, e.name);
        Pass(step.1, p.outcomes + [step.0])
  }

  /** Every outcome in `outs` is skipped, renamed or an error. */
  predicate AllAutoOutcomes(outs: seq<Outcome>) {
    forall i :: 0 <= i < |outs| ==> AutoOutcome(outs[i])
  }

  lemma AllAutoOutcomesSnoc(outs: seq<Outcome>, o: Outcome)
    requires AllAutoOutcomes(outs) && AutoOutcome(o)
    ensures AllAutoOutcomes(outs + [o])
  {
    assert forall i :: 0 <= i < |outs| ==> (outs + [o])[i] == outs[i];
  }

  /** Every outcome of the loop is skipped, renamed or an error. */
  lemma {:induction false} AutoSweepOutcomes(task: AutoTask, mp: AutoMapping, folder: set<string>, entries: seq<Entry>)
    ensures AllAutoOutcomes(AutoSweep(task, mp, folder, entries).outcomes)
  {
    if entries != [] {
      var front := entries[..|entries| - 1];
      AutoSweepOutcomes(task, mp, folder, front);
      var p := AutoSweep(task, mp, folder, front);
      var e := entries[|entries| - 1];
      if e.isFile {
        var step := AutoStep(task, mp, p.folder, e.name);
        AllAutoOutcomesSnoc(p.outcomes, step.0);
      }
    }
  }

  /** How `run_renamer` ends: the table could not be read, or the loop ran
      and produced these outcomes and counters. */
  datatype AutoReport = MappingFailed | Finished(outcomes: seq<Outcome>, stats: Tally)

  /** `run_renamer(folder, csv_path, threshold)`: `read` is what reading
      `csv_path` yields. */
  function RunRenamerSpec(task: AutoTask, read: CsvRead, folder: set<string>, entries: seq<Entry>): (r: (AutoReport, set<string>))
  {
    match ReadMapping(read)
    case Failure(_) => (MappingFailed, folder)
    case Success(mp) =>
      var p := AutoSweep(task, mp, folder, entries);
      (Finished(p.outcomes, TallyOf(p.outcomes)), p.folder)
  }

  /** A table that cannot be read stops the run before any file is looked
      at; otherwise every regular file is counted once and lands in exactly
      one of renamed, skipped and errors. */
  lemma RunRenamerAccounts(task: AutoTask, read: CsvRead, folder: set<string>, entries: seq<Entry>)
    ensures var r := RunRenamerSpec(task, read, folder, entries);
      && (r.0 == MappingFailed <==> !read.Table?)
      && (r.0 == MappingFailed ==> r.1 == folder)
      && (r.0.Finished? ==>
            && r.0.stats.total == |Filter(entries, IsFile)|
            && r.0.stats.total == r.0.stats.renamed + r.0.stats.skipped + r.0.stats.errors
            && r.0.stats.renamed == |Filter(r.0.outcomes, IsRenamed)|
            && r.0.stats.errors == |Filter(r.0.outcomes, IsFailed)|)
  {
    var r := RunRenamerSpec(task, read, folder, entries);
    if r.0.Finished? {
      AutoSweepOutcomes(task, ReadMapping(read).value, folder, entries);
      UnusedBuckets(r.0.outcomes);
      TallyCountsOutcomes(r.0.outcomes);
    }
  }

  /** The loop body's `try` for one regular file. */
  method HandleFile(task: AutoTask, mp: AutoMapping, folder: set<string>, filename: string) returns (o: Outcome, after: set<string>)
    ensures (o, after) == AutoStep(task, mp, folder, filename)
  {
    var (name, ext) := SplitExt(filename);
    var cleaned := CleanFilename(name);
    var found := AutoMatch(task.m, cleaned, mp.cn, task.threshold);
    if found.found.None? || found.found.value == [] {
      return Skipped, folder;
    }
    var eng := Get(mp.mapping, found.found.value);
    if eng.None? || eng.value == [] {
      return Skipped, folder;
    }
    var target := Allocate(folder, eng.value + ext);
    if filename in task.failing {
      return Failed, folder;
    }
    return Renamed(target), folder - {filename} + {target};
  }

  /** One more entry of the listing: a regular file takes one step. */
  lemma AutoSweepStep(task: AutoTask, mp: AutoMapping, folder: set<string>, entries: seq<Entry>,
                      i: nat, after: set<string>, outcomes: seq<Outcome>)
    requires i < |entries|
    requires AutoSweep(task, mp, folder, entries[..i]) == Pass(after, outcomes)
    ensures AutoSweep(task, mp, folder, entries[..i + 1]) ==
      if entries[i].isFile then
        var step := AutoStep(task, mp, after, entries[i].name);
        Pass(step.1, outcomes + [step.0])
      else Pass(after, outcomes)
  {
    assert entries[..i + 1][..i] == entries[..i];
  }

  /** `for filename in files`: entries that are not regular files are
      passed over, every other one is handled and counted. */
  method RenameFiles(task: AutoTask, mp: AutoMapping, folder: set<string>, entries: seq<Entry>)
    returns (outcomes: seq<Outcome>, stats: Tally, after: set<string>)
    ensures AutoSweep(task, mp, folder, entries) == Pass(after, outcomes)
    ensures stats == TallyOf(outcomes)
  {
    outcomes, stats, after := [], NoFiles, folder;
    for i := 0 to |entries|
      invariant AutoSweep(task, mp, folder, entries[..i]) == Pass(after, outcomes)
      invariant stats == TallyOf(outcomes)
    {
      AutoSweepStep(task, mp, folder, entries, i, after, outcomes);
      if entries[i].isFile {
        var o;
        o, after := HandleFile(task, mp, after, entries[i].name);
        TallySnoc(outcomes, o);
        outcomes := outcomes + [o];
        stats := Bump(stats, o);
      }
    }
    assert entries[..|entries|] == entries;
  }

  /** The application object: only whether a run is in progress matters
      to the loop. */
  class AutoRenamerApp {
    var running: bool

    constructor()
      ensures !running
    {
      running := false;
    }

    /** `run_renamer`: read the table, then rename file by file; the run
        ends with `running` cleared on both paths. */
    method RunRenamer(task: AutoTask, read: CsvRead, folder: set<string>, entries: seq<Entry>)
      returns (report: AutoReport, after: set<string>)
      modifies this
      ensures (report, after) == RunRenamerSpec(task, read, folder, entries)
      ensures !running
    {
      var loaded := ReadMapping(read);
      if loaded.Failure? {
        running := false;
        return MappingFailed, folder;
      }
      var outcomes, stats;
      outcomes, stats, after := RenameFiles(task, loaded.value, folder, entries);
      running := false;
      return Finished(outcomes, stats), after;
    }
  }
}
