/** `CSVMapper` of `core.py`: resolving a platform to its reference table,
    and building the three lookup structures of a table, memoised per path.
    A table is given as the rows `pandas` would produce after
    `fillna("")`; the directory of tables is a map from file name to what
    reading that file yields. */
module Mapper {
  import opened Wrappers
  import opened Seqs
  import opened PyDict
  import opened Config

  /** One table row: the English name and the localised (Chinese) name. */
  datatype Row = Row(eng: string, cn: string)

  /** What reading one table file yields. */
  datatype CsvRead = Unreadable | TooFewColumns | Table(rows: seq<Row>)

  /** The table files that exist, by file name. */
  type CsvStore = map<string, CsvRead>

  /** Why `load_mapping` raised its `ValueError`. */
  datatype LoadError = ReadFailed | NeedsTwoColumns

  /** The cached value: `cn_to_eng`, `eng_to_cn` and `cn_list`. */
  datatype Mapping = Mapping(cnToEng: Dict<string, string>, engToCn: Dict<string, string>, cnList: seq<string>)

  function EngOf(r: Row): string { r.eng }
  function CnOf(r: Row): string { r.cn }
  function HasCn(r: Row): bool { r.cn != [] }
  function NonEmpty(s: string): bool { s != [] }

  /** The second column of the table. */
  function CnColumn(rows: seq<Row>): seq<string> {
    KeysOf(rows, CnOf)
  }

  /** The three comprehensions of `load_mapping`. */
  function BuildMapping(rows: seq<Row>): (mp: Mapping)
    ensures mp.cnToEng.Valid() && mp.engToCn.Valid()
    ensures forall k :: 0 <= k < |mp.cnList| ==> mp.cnList[k] != []
  {
    Mapping(
      Collect(rows, CnOf, EngOf, HasCn),
      Collect(rows, EngOf, CnOf, HasCn),
      Filter(CnColumn(rows), NonEmpty))
  }

  /** `cn_list` keeps every non-empty cn cell as often as it occurs, and no
      empty one. */
  lemma CnListKeepsDuplicates(rows: seq<Row>, c: string)
    ensures Count(BuildMapping(rows).cnList, c) == if c == [] then 0 else Count(CnColumn(rows), c)
  {
    FilterKeepsCount(CnColumn(rows), NonEmpty, c);
  }

  /** `cn_to_eng` holds exactly the non-empty cn cells, and each maps to the
      English name of the last row carrying it. */
  lemma CnToEngLastRowWins(rows: seq<Row>, c: string)
    ensures c in BuildMapping(rows).cnToEng.values <==> exists i :: 0 <= i < |rows| && rows[i].cn == c && c != []
    ensures c in BuildMapping(rows).cnToEng.values ==>
              exists i :: LastKeptWithKey(rows, CnOf, HasCn, c, i) && BuildMapping(rows).cnToEng.values[c] == rows[i].eng
  {
    var d := Collect(rows, CnOf, EngOf, HasCn);
    if c in d.values {
      CollectLastWins(rows, CnOf, EngOf, HasCn, c);
    }
    if exists i :: 0 <= i < |rows| && rows[i].cn == c && c != [] {
      var i :| 0 <= i < |rows| && rows[i].cn == c && c != [];
      assert HasCn(rows[i]) && CnOf(rows[i]) == c;
    }
  }

  /** `eng_to_cn` holds the English names of the rows with a non-empty cn;
      each maps to the cn of the last such row, which is never empty. */
  lemma EngToCnLastRowWins(rows: seq<Row>, e: string)
    ensures e in BuildMapping(rows).engToCn.values <==> exists i :: 0 <= i < |rows| && rows[i].eng == e && rows[i].cn != []
    ensures e in BuildMapping(rows).engToCn.values ==>
              exists i :: LastKeptWithKey(rows, EngOf, HasCn, e, i) && BuildMapping(rows).engToCn.values[e] == rows[i].cn
    ensures e in BuildMapping(rows).engToCn.values ==> BuildMapping(rows).engToCn.values[e] != []
  {
    var d := Collect(rows, EngOf, CnOf, HasCn);
    if e in d.values {
      CollectLastWins(rows, EngOf, CnOf, HasCn, e);
    }
    if exists i :: 0 <= i < |rows| && rows[i].eng == e && rows[i].cn != [] {
      var i :| 0 <= i < |rows| && rows[i].eng == e && rows[i].cn != [];
      assert HasCn(rows[i]) && EngOf(rows[i]) == e;
    }
  }

  /** Every name the matcher can return from `cn_list` has a `cn_to_eng`
      entry, and conversely. */
  lemma CnListIsCnToEngDomain(rows: seq<Row>, c: string)
    ensures c in BuildMapping(rows).cnList <==> c in BuildMapping(rows).cnToEng.values
  {
    CnListKeepsDuplicates(rows, c);
    CnToEngLastRowWins(rows, c);
    var col := CnColumn(rows);
    if c in col {
      var i :| 0 <= i < |col| && col[i] == c;
      assert rows[i].cn == c;
    }
    if exists i :: 0 <= i < |rows| && rows[i].cn == c && c != [] {
      var i :| 0 <= i < |rows| && rows[i].cn == c && c != [];
      assert col[i] == c;
    }
  }

  /** The body of the `try` in `load_mapping`. */
  function Load(read: CsvRead): Result<Mapping, LoadError> {
    match read
    case Unreadable => Failure(ReadFailed)
    case TooFewColumns => Failure(NeedsTwoColumns)
    case Table(rows) => Success(BuildMapping(rows))
  }

  /** Reading a path: a file that is not there cannot be read. */
  function ReadOf(store: CsvStore, path: string): CsvRead {
    if path in store then store[path] else Unreadable
  }

  /** Both dicts of a mapping are well formed. */
  predicate MappingValid(mp: Mapping) {
    mp.cnToEng.Valid() && mp.engToCn.Valid()
  }

  /** Every cached mapping is well formed. */
  predicate CacheValid(cache: map<string, Mapping>) {
    forall p :: p in cache ==> MappingValid(cache[p])
  }

  /** One call of `load_mapping` on a cache: the result and the new cache. */
  function LoadStep(cache: map<string, Mapping>, store: CsvStore, path: string): (r: (Result<Mapping, LoadError>, map<string, Mapping>))
    ensures path in cache ==> r == (Success(cache[path]), cache)
    ensures path !in cache && r.0.Failure? ==> r.1 == cache
    ensures r.0.Success? ==> r.1 == cache[path := r.0.value]
    ensures CacheValid(cache) ==> CacheValid(r.1) && (r.0.Success? ==> MappingValid(r.0.value))
  {
    if path in cache then (Success(cache[path]), cache)
    else
      match Load(ReadOf(store, path))
      case Success(mp) => (Success(mp), cache[path := mp])
      case Failure(e) => (Failure(e), cache)
  }

  /** Every cached value is what reading its table now would give. */
  ghost predicate CacheAgrees(cache: map<string, Mapping>, store: CsvStore) {
    forall p :: p in cache ==> Load(ReadOf(store, p)) == Success(cache[p])
  }

  /** While the tables do not change, the cache is invisible: a load gives
      what reading the table gives, and the cache stays faithful. */
  lemma CacheIsTransparent(cache: map<string, Mapping>, store: CsvStore, path: string)
    requires CacheAgrees(cache, store)
    ensures LoadStep(cache, store, path).0 == Load(ReadOf(store, path))
    ensures CacheAgrees(LoadStep(cache, store, path).1, store)
  {
  }

  /** `CSVMapper.get_csv_path`: the table of a configured platform, if its
      file exists. */
  function GetCsvPath(platform: string, store: CsvStore): (r: Option<string>)
    ensures r.Some? <==> Lookup(platform).Some? && Lookup(platform).value.csv in store
    ensures r.Some? ==> r.value == Lookup(platform).value.csv && r.value in store
  {
    match Lookup(platform)
    case None => None
    case Some(e) => if e.csv in store then Some(e.csv) else None
  }

  /** `CSVMapper.get_platform_extensions`: empty for an unknown platform. */
  function GetPlatformExtensions(platform: string): (r: seq<string>)
    ensures Lookup(platform).None? ==> r == []
    ensures Lookup(platform).Some? ==> r == Lookup(platform).value.extensions && r != []
  {
    PlatformConfigWellFormed();
    match Lookup(platform)
    case None => []
    case Some(e) => e.extensions
  }

  /** The mapper object: its memo of loaded tables. */
  class CsvMapper {
    var cache: map<string, Mapping>

    constructor()
      ensures cache == map[]
    {
      cache := map[];
    }

    /** `load_mapping`: a cached path is answered from the cache; otherwise
        the table is read, and only a successful load is cached. */
    method LoadMapping(path: string, store: CsvStore) returns (r: Result<Mapping, LoadError>)
      modifies this
      ensures (r, cache) == LoadStep(old(cache), store, path)
    {
      if path in cache {
        return Success(cache[path]);
      }
      r := Load(ReadOf(store, path));
      if r.Success? {
        cache := cache[path := r.value];
      }
    }

    /** `self.mapper.cache.clear()`. */
    method ClearCache()
      modifies this
      ensures cache == map[]
    {
      cache := map[];
    }
  }
}
