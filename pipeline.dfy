/** `main` and the gate of `run_phenix_refine`. The batch walks the entries
    of the base directory; every entry that is a directory named
    "MyProtein-MyLibrary-..." gets the six stage calls in a fixed order. The
    run is recorded as a trace of (directory, stage) events; what each
    external tool does inside its stage is not modelled, so in the model no
    stage's outcome affects which calls follow. Exceptions that escape a
    stage in the script (and end the whole run) are not modelled either. */
module Pipeline {
  import opened PyText

  const DatasetPrefix := "MyProtein-MyLibrary-"

  /** An entry of `os.listdir(base_dir)`, with what `os.path.isdir` says of it. */
  datatype Entry = Entry(name: string, isDir: bool)

  datatype Stage =
    | Uniqueify             // run_uniqueify
    | Cad                   // run_cad
    | Phaser                // run_phaser
    | ChangeOccupancy       // change_occupancy
    | PhenixRefine          // run_phenix_refine
    | ChangeOccupancyRefine // change_occupancy_refine

  /** One stage call on one dataset directory. */
  datatype Event = Event(dir: string, stage: Stage)

  /** What `os.listdir` guarantees: names are distinct and contain no
      path separator. */
  predicate Listing(entries: seq<Entry>) {
    && (forall i, j :: 0 <= i < j < |entries| ==> entries[i].name != entries[j].name)
    && (forall i :: 0 <= i < |entries| ==> '/' !in entries[i].name)
  }

  /** The selection test of `main`: a directory whose name begins with
      "MyProtein-MyLibrary-". Such a name is never absolute, so
      `os.path.join` always places it under the base directory. */
  function IsDataset(e: Entry): (b: bool)
    ensures b ==> e.isDir && |e.name| >= |DatasetPrefix| && !StartsWith(e.name, "/")
  {
    assert DatasetPrefix[0] != '/';
    e.isDir && StartsWith(e.name, DatasetPrefix)
  }

  /** The calls `main` makes for one dataset directory, in order. */
  function DatasetRun(dir: string): seq<Event> {
    [Event(dir, Uniqueify), Event(dir, Cad), Event(dir, Phaser),
     Event(dir, ChangeOccupancy), Event(dir, PhenixRefine), Event(dir, ChangeOccupancyRefine)]
  }

  /** The calls `main` makes for one entry. */
  function EntryRun(base: string, e: Entry): seq<Event> {
    if IsDataset(e) then DatasetRun(Join(base, e.name)) else []
  }

  /** The calls of a whole batch, entry after entry. */
  function BatchTrace(base: string, entries: seq<Entry>): seq<Event> {
    if entries == [] then []
    else BatchTrace(base, entries[..|entries| - 1]) + EntryRun(base, entries[|entries| - 1])
  }

  function CountDatasets(entries: seq<Entry>): nat {
    if entries == [] then 0
    else CountDatasets(entries[..|entries| - 1]) + (if IsDataset(entries[|entries| - 1]) then 1 else 0)
  }

  /** The loop of `main`: for every selected entry, the six stage calls on
      `os.path.join(base_dir, subdir)`. */
  method RunBatch(base: string, entries: seq<Entry>) returns (trace: seq<Event>)
    ensures trace == BatchTrace(base, entries)
  {
    trace := [];
    for i := 0 to |entries|
      invariant trace == BatchTrace(base, entries[..i])
    {
      var subdir := entries[i];
      var path := Join(base, subdir.name);
      assert entries[..i + 1][..i] == entries[..i];
      ghost var before := trace;
      if IsDataset(subdir) {
        trace := trace + [Event(path, Uniqueify)];
        trace := trace + [Event(path, Cad)];
        trace := trace + [Event(path, Phaser)];
        trace := trace + [Event(path, ChangeOccupancy)];
        trace := trace + [Event(path, PhenixRefine)];
        trace := trace + [Event(path, ChangeOccupancyRefine)];
        assert trace == before + DatasetRun(path);
      }
    }
    assert entries[..|entries|] == entries;
  }

  /** The trace of two consecutive parts of a listing is the concatenation
      of their traces. */
  lemma {:induction false} BatchTraceAppend(base: string, a: seq<Entry>, b: seq<Entry>)
    ensures BatchTrace(base, a + b) == BatchTrace(base, a) + BatchTrace(base, b)
    decreases |b|
  {
    if b == [] {
      assert a + b == a;
    } else {
      var b', e := b[..|b| - 1], b[|b| - 1];
      assert (a + b)[..|a + b| - 1] == a + b';
      assert (a + b)[|a + b| - 1] == e;
      assert BatchTrace(base, a + b) == BatchTrace(base, a + b') + EntryRun(base, e);
      assert BatchTrace(base, b) == BatchTrace(base, b') + EntryRun(base, e);
      BatchTraceAppend(base, a, b');
    }
  }

  /** Every dataset directory gets the six stages, consecutively and in the
      fixed order uniqueify, cad, phaser, change_occupancy, refine,
      change_occupancy_refine, right after the calls of the entries listed
      before it. */
  lemma DatasetStagesInOrder(base: string, entries: seq<Entry>, i: int)
    requires 0 <= i < |entries| && IsDataset(entries[i])
    ensures var p := |BatchTrace(base, entries[..i])|;
      p + 6 <= |BatchTrace(base, entries)| &&
      BatchTrace(base, entries)[p..p + 6] == DatasetRun(Join(base, entries[i].name))
  {
    var pre, e, post := entries[..i], entries[i], entries[i + 1..];
    assert entries == pre + [e] + post;
    BatchTraceAppend(base, pre + [e], post);
    BatchTraceAppend(base, pre, [e]);
    assert [e][..0] == [];
  }

  /** Some selected entry of the listing is joined into `dir`. */
  predicate DatasetDir(base: string, entries: seq<Entry>, dir: string) {
    exists i :: 0 <= i < |entries| && IsDataset(entries[i]) && dir == Join(base, entries[i].name)
  }

  /** The calls for one entry are all on that entry's path, and only a
      selected entry has any. */
  lemma EntryRunDirs(base: string, e: Entry)
    ensures forall ev :: ev in EntryRun(base, e) ==> IsDataset(e) && ev.dir == Join(base, e.name)
  {
  }

  /** Every call in the trace is on a selected entry. */
  lemma {:induction false} OnlyDatasetsRun(base: string, entries: seq<Entry>)
    ensures forall ev :: ev in BatchTrace(base, entries) ==> DatasetDir(base, entries, ev.dir)
  {
    if entries != [] {
      var init, last := entries[..|entries| - 1], entries[|entries| - 1];
      assert BatchTrace(base, entries) == BatchTrace(base, init) + EntryRun(base, last);
      OnlyDatasetsRun(base, init);
      EntryRunDirs(base, last);
      forall ev | ev in BatchTrace(base, entries)
        ensures DatasetDir(base, entries, ev.dir)
      {
        if ev in BatchTrace(base, init) {
          var i :| 0 <= i < |init| && IsDataset(init[i]) && ev.dir == Join(base, init[i].name);
          assert entries[i] == init[i];
        } else {
          assert entries[|entries| - 1] == last;
        }
      }
    }
  }

  /** Every stage call is on a path inside the base directory. */
  lemma StagesInsideBase(base: string, entries: seq<Entry>)
    ensures forall ev :: ev in BatchTrace(base, entries) ==> StartsWith(ev.dir, base)
  {
    OnlyDatasetsRun(base, entries);
    forall ev | ev in BatchTrace(base, entries)
      ensures StartsWith(ev.dir, base)
    {
      var i :| 0 <= i < |entries| && IsDataset(entries[i]) && ev.dir == Join(base, entries[i].name);
      JoinShape(base, entries[i].name);
    }
  }

  /** An entry that is not a dataset directory, such as a file or a
      directory "Other-42", is never handed to any stage. */
  lemma OtherEntryUntouched(base: string, entries: seq<Entry>, j: int)
    requires Listing(entries)
    requires 0 <= j < |entries| && !IsDataset(entries[j])
    ensures forall ev :: ev in BatchTrace(base, entries) ==> ev.dir != Join(base, entries[j].name)
  {
    OnlyDatasetsRun(base, entries);
    forall ev | ev in BatchTrace(base, entries)
      ensures ev.dir != Join(base, entries[j].name)
    {
      var i :| 0 <= i < |entries| && IsDataset(entries[i]) && ev.dir == Join(base, entries[i].name);
      if ev.dir == Join(base, entries[j].name) {
        JoinInjective(base, entries[i].name, entries[j].name);
      }
    }
  }

  /** The batch makes exactly six calls per dataset directory. */
  lemma {:induction false} TraceLength(base: string, entries: seq<Entry>)
    ensures |BatchTrace(base, entries)| == 6 * CountDatasets(entries)
  {
    if entries != [] {
      TraceLength(base, entries[..|entries| - 1]);
    }
  }

  /** The three files `run_phenix_refine` waits for and requires. */
  const RefineInputs: seq<string> := ["PHASER.mtz", "PHASER.pdb", "input.ligands.cif"]

  /** The fixed options of `phenix.refine`: low-resolution cutoff 75,
      5% free-R flags generated, at most 500, and individual occupancy
      refinement of C, O, N, S and P atoms. */
  const RefineFlags: seq<string> := [
    "xray_data.low_resolution=75",
    "xray_data.r_free_flags.generate=True",
    "xray_data.r_free_flags.fraction=0.05",
    "xray_data.r_free_flags.max_free=500",
    "refinement.refine.occupancies.individual=\"element C or element O or element N or element S or element P\""]

  /** The refine stage either issues the `phenix.refine` argument vector or
      reports "Missing necessary files". */
  datatype RefineOutcome = Refined(command: seq<string>) | MissingFiles

  /** The argument vector of `phenix.refine` for a dataset directory: the
      three inputs, the fixed refinement flags and the output prefix. */
  function RefineCommand(dir: string): (c: seq<string>)
    ensures |c| == 10 && c[0] == "phenix.refine"
    ensures forall i :: 0 <= i < |RefineInputs| ==> c[i + 1] == Join(dir, RefineInputs[i])
    ensures c[4..9] == RefineFlags
    ensures c[9] == "output.prefix=" + Join(dir, "PHASER.phenix_refine")
  {
    ["phenix.refine"] +
    [Join(dir, RefineInputs[0]), Join(dir, RefineInputs[1]), Join(dir, RefineInputs[2])] +
    RefineFlags +
    ["output.prefix=" + Join(dir, "PHASER.phenix_refine")]
  }

  /** The gate of `run_phenix_refine`, after its three waits: `present(p)`
      is what `os.path.exists(p)` answers at the check. The command is issued
      exactly when all three inputs exist, and it names exactly those files. */
  function RunPhenixRefine(dir: string, present: string -> bool): (r: RefineOutcome)
    ensures r.Refined? <==> forall i :: 0 <= i < |RefineInputs| ==> present(Join(dir, RefineInputs[i]))
    ensures r.Refined? ==>
      |r.command| == 10 && r.command[0] == "phenix.refine" &&
      forall i :: 0 <= i < |RefineInputs| ==>
        r.command[i + 1] == Join(dir, RefineInputs[i]) && present(r.command[i + 1])
  {
    var mtz, pdb, cif := Join(dir, RefineInputs[0]), Join(dir, RefineInputs[1]), Join(dir, RefineInputs[2]);
    if present(mtz) && present(pdb) && present(cif) then Refined(RefineCommand(dir))
    else MissingFiles
  }

  /** Without the ligand restraints no refinement command is issued. */
  lemma MissingLigandsSkipRefine(dir: string, present: string -> bool)
    requires !present(Join(dir, "input.ligands.cif"))
    ensures RunPhenixRefine(dir, present) == MissingFiles
  {
    assert RefineInputs[2] == "input.ligands.cif";
  }
}
