/** The shared vocabulary of the batch renaming loops: directory entries,
    the bucket each regular file lands in, the statistics, and the rename
    itself as an update of the set of names in the folder. */
module Batch {
  import opened Seqs
  import opened UniqueName

  /** One name as `os.listdir` returns it, and whether `os.path.isfile`
      holds for it. */
  datatype Entry = Entry(name: string, isFile: bool)

  function IsFile(e: Entry): bool { e.isFile }

  /** The bucket of one regular file. `Renamed` is also what a preview
      reports for a file it would rename. */
  datatype Outcome = WrongExt | English | NoCsv | Skipped | Renamed(target: string) | Failed

  /** The `stats` dict of a renaming loop. */
  datatype Tally = Tally(total: nat, renamed: nat, skipped: nat, english: nat, wrongExt: nat, noCsv: nat, errors: nat)

  const NoFiles := Tally(0, 0, 0, 0, 0, 0, 0)

  /** `stats['total'] += 1` and then the one bucket of the outcome. */
  function Bump(t: Tally, o: Outcome): Tally {
    var t := t.(total := t.total + 1);
    match o
    case WrongExt => t.(wrongExt := t.wrongExt + 1)
    case English => t.(english := t.english + 1)
    case NoCsv => t.(noCsv := t.noCsv + 1)
    case Skipped => t.(skipped := t.skipped + 1)
    case Renamed(_) => t.(renamed := t.renamed + 1)
    case Failed => t.(errors := t.errors + 1)
  }

  /** The statistics of a loop that produced `outs`: the total is the
      number of files and every file is in exactly one bucket. */
  function TallyOf(outs: seq<Outcome>): (r: Tally)
    ensures r.total == |outs|
    ensures r.total == r.renamed + r.skipped + r.english + r.wrongExt + r.noCsv + r.errors
  {
    if outs == [] then NoFiles else Bump(TallyOf(outs[..|outs| - 1]), outs[|outs| - 1])
  }

  /** One more outcome bumps its own counter. */
  lemma TallySnoc(outs: seq<Outcome>, o: Outcome)
    ensures TallyOf(outs + [o]) == Bump(TallyOf(outs), o)
  {
    assert (outs + [o])[..|outs|] == outs;
  }

  function IsRenamed(o: Outcome): bool { o.Renamed? }
  function IsSkipped(o: Outcome): bool { o == Skipped }
  function IsFailed(o: Outcome): bool { o == Failed }

  /** The renamed, skipped and error counters count exactly the files with
      that outcome. */
  lemma {:induction false} TallyCountsOutcomes(outs: seq<Outcome>)
    ensures TallyOf(outs).renamed == |Filter(outs, IsRenamed)|
    ensures TallyOf(outs).skipped == |Filter(outs, IsSkipped)|
    ensures TallyOf(outs).errors == |Filter(outs, IsFailed)|
  {
    if outs != [] {
      TallyCountsOutcomes(outs[..|outs| - 1]);
    }
  }

  /** A bucket no file lands in stays at 0. */
  lemma {:induction false} UnusedBuckets(outs: seq<Outcome>)
    ensures (forall i :: 0 <= i < |outs| ==> outs[i] != WrongExt) ==> TallyOf(outs).wrongExt == 0
    ensures (forall i :: 0 <= i < |outs| ==> outs[i] != English) ==> TallyOf(outs).english == 0
    ensures (forall i :: 0 <= i < |outs| ==> outs[i] != NoCsv) ==> TallyOf(outs).noCsv == 0
  {
    if outs != [] {
      UnusedBuckets(outs[..|outs| - 1]);
    }
  }

  /** The rename of `source` to a fresh name derived from `eng + ext`:
      a preview only reports the target; `os.rename` either raises (the
      names in `failing`) or moves the file. A caller may rely on this:
      the target is always a free name, and the folder changes exactly when
      a committed rename succeeds. */
  function Commit(folder: set<string>, failing: set<string>, commit: bool, source: string, stem: string): (r: (Outcome, set<string>))
    ensures r.0 == Failed || r.0 == Renamed(Allocation(folder, stem))
    ensures Allocation(folder, stem) !in folder
    ensures r.0 == Failed <==> commit && source in failing
    ensures !commit || source in failing ==> r.1 == folder
    ensures commit && source !in failing ==> r.1 == folder - {source} + {Allocation(folder, stem)}
  {
    var target := Allocation(folder, stem);
    if !commit then (Renamed(target), folder)
    else if source in failing then (Failed, folder)
    else (Renamed(target), folder - {source} + {target})
  }

  /** A move never overwrites: a folder holding the source keeps its
      number of names, and nothing but the source leaves it. */
  lemma CommitKeepsOtherFiles(folder: set<string>, failing: set<string>, commit: bool, source: string, stem: string)
    requires source in folder
    ensures |Commit(folder, failing, commit, source, stem).1| == |folder|
    ensures forall n :: n in folder && n != source ==> n in Commit(folder, failing, commit, source, stem).1
  {
    var target := Allocation(folder, stem);
    if commit && source !in failing {
      assert folder - {source} + {target} == (folder - {source}) + {target};
      assert |folder - {source}| == |folder| - 1;
    }
  }
}
