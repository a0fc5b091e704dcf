/**
 * Reading an application's metadata from its stored file, and the cron task
 * that does so for the packages still waiting for it. The parser library and
 * the UPK translator are parameters: a Verdict says what each of them
 * reports on one package's file.
 */
module Scanner {
  import opened Wrappers
  import opened Decimal
  import opened Paths
  import opened Records
  import opened Upload

  /** What the parser library reads from an application. */
  datatype Manifest = Manifest(
    packageName: string,
    versionName: string,
    versionCode: string,
    labels: seq<string>,
    icon: string)

  /** Opening an APK: the parser, or the exception its constructor throws. */
  datatype ApkOutcome = ApkParsed(manifest: Manifest) | ApkThrows

  /** Translating a UPK: a parser for the APK inside, or none. */
  datatype UpkOutcome = UpkParsed(manifest: Manifest) | NoParser

  /** What the parser library and the UPK translator report on one file. */
  datatype Verdict = Verdict(apk: ApkOutcome, upk: UpkOutcome)

  /** The label stored as the alias; a manifest without labels gives "". */
  function FirstLabel(m: Manifest): string {
    if |m.labels| > 0 then m.labels[0] else ""
  }

  /** Where a package's file lies under the plugin's document directory. */
  function Destination(docDir: string, p: Package): string {
    docDir + "/" + p.filename
  }

  /** What parseApplication does with a file: nothing, mark it 'failed', or store a manifest. */
  datatype ParseStep = Skip | MarkFailed | Store(manifest: Manifest)

  /** The step for a file with extension `ext` on which the parsers report `v`. */
  function StepFor(ext: string, v: Verdict): ParseStep {
    if ext == "apk" then
      match v.apk
      case ApkParsed(m) => Store(m)
      case ApkThrows => Skip
    else if ext == "upk" then
      match v.upk
      case UpkParsed(m) => Store(m)
      case NoParser => MarkFailed
    else Skip
  }

  /** The step for a package's stored file. */
  function FileStep(p: Package, docDir: string, v: Verdict): ParseStep {
    StepFor(Extension(Destination(docDir, p)), v)
  }

  /** The columns a successful parse writes. */
  function ManifestInput(m: Manifest): (input: Input)
    ensures input.parseStatus == Some(Parsed)
    ensures input.alias == Some(FirstLabel(m))
    ensures input.filename == None && input.dlFilename == None && input.entity == None
  {
    NoChange.(icon := Some(m.icon),
              packageName := Some(m.packageName),
              version := Some(m.versionName),
              versionCode := Some(m.versionCode),
              alias := Some(FirstLabel(m)),
              parseStatus := Some(Parsed))
  }

  /** The row after a step. */
  function Applied(p: Package, step: ParseStep): Package {
    match step
    case Skip => p
    case MarkFailed => ApplyInput(p, NoChange.(parseStatus := Some(Failed)))
    case Store(m) => ApplyInput(p, ManifestInput(m))
  }

  /** The row after parseApplication. */
  function AfterParse(p: Package, docDir: string, v: Verdict): Package {
    Applied(p, FileStep(p, docDir, v))
  }

  /**
   * The package table, as the sequence of rows in the order the database
   * returns them. Methods address a row by its position, which stands for
   * the framework's lookup of the row with that `id`.
   */
  class PackageTable {
    var rows: seq<Package>

    constructor(rows: seq<Package>)
      ensures this.rows == rows
    {
      this.rows := rows;
    }

    /** The framework's update: the present keys of `input` are written to the row. */
    method Update(index: nat, input: Input) returns (ok: bool)
      requires index < |rows|
      modifies this
      ensures rows == old(rows)[index := ApplyInput(old(rows)[index], input)]
      ensures ok
    {
      rows := rows[index := ApplyInput(rows[index], input)];
      ok := true;
    }

    /** parseApplication on the row at `index`: true when the metadata was read and stored. */
    method ParseApplication(index: nat, docDir: string, v: Verdict)
      returns (ok: bool)
      requires index < |rows|
      modifies this
      ensures ok <==> FileStep(old(rows)[index], docDir, v).Store?
      ensures rows == old(rows)[index := AfterParse(old(rows)[index], docDir, v)]
    {
      var p := rows[index];
      var destination := Destination(docDir, p);
      var fileExtension := Extension(destination);
      assert FileStep(p, docDir, v) == StepFor(fileExtension, v);
      ghost var after := AfterParse(p, docDir, v);
      if fileExtension == "apk" {
        match v.apk {
          case ApkThrows =>
            assert StepFor(fileExtension, v) == Skip;
            assert after == p;
            UpdateWithSame(rows, index);
            assert rows == old(rows)[index := after];
            ok := false;
          case ApkParsed(manifest) =>
            assert StepFor(fileExtension, v) == Store(manifest);
            assert after == ApplyInput(p, ManifestInput(manifest));
            ok := StoreManifest(index, manifest);
            assert rows == old(rows)[index := after];
        }
      } else if fileExtension == "upk" {
        match v.upk {
          case NoParser =>
            assert StepFor(fileExtension, v) == MarkFailed;
            assert after == ApplyInput(p, NoChange.(parseStatus := Some(Failed)));
            var marked := Update(index, NoChange.(parseStatus := Some(Failed)));
            assert rows == old(rows)[index := after];
            ok := false;
          case UpkParsed(manifest) =>
            assert StepFor(fileExtension, v) == Store(manifest);
            assert after == ApplyInput(p, ManifestInput(manifest));
            ok := StoreManifest(index, manifest);
            assert rows == old(rows)[index := after];
        }
      } else {
        assert StepFor(fileExtension, v) == Skip;
        assert after == p;
        UpdateWithSame(rows, index);
        assert rows == old(rows)[index := after];
        ok := false;
      }
    }

    /**
     * The successful end of parseApplication: the input built from a fresh
     * array (so the alias test always sees no alias), saved to the row.
     */
    method StoreManifest(index: nat, manifest: Manifest) returns (ok: bool)
      requires index < |rows|
      modifies this
      ensures ok
      ensures rows == old(rows)[index := ApplyInput(old(rows)[index], ManifestInput(manifest))]
    {
      var input := NoChange;
      input := input.(icon := Some(manifest.icon));
      input := input.(packageName := Some(manifest.packageName));
      input := input.(version := Some(manifest.versionName));
      input := input.(versionCode := Some(manifest.versionCode));
      if input.alias.None? || |input.alias.GetOr("")| == 0 {
        input := input.(alias := Some(FirstLabel(manifest)));
      }
      input := input.(parseStatus := Some(Parsed));
      assert input == ManifestInput(manifest);
      ok := Update(index, input);
    }
  }

  /** Writing a row back unchanged leaves the table as it was. */
  lemma UpdateWithSame(rows: seq<Package>, index: nat)
    requires index < |rows|
    ensures rows[index := rows[index]] == rows
  {
  }

  // ---------------------------------------------------------------------
  // What parseApplication does to a row
  // ---------------------------------------------------------------------

  /** A file whose extension is neither "apk" nor "upk" is skipped. */
  lemma UnsupportedExtensionSkipped(ext: string, v: Verdict)
    requires !AllowedExtension(ext)
    ensures StepFor(ext, v) == Skip
  {
  }

  /** An APK the parser throws on is skipped; a UPK without parser is marked failed. */
  lemma ParserFailureSteps(v: Verdict)
    ensures v.apk == ApkThrows ==> StepFor("apk", v) == Skip
    ensures v.upk == NoParser ==> StepFor("upk", v) == MarkFailed
  {
  }

  /** A parse stores a manifest exactly for an APK the parser opens or a UPK the translator has a parser for. */
  lemma StoreIff(ext: string, v: Verdict)
    ensures StepFor(ext, v).Store? == ((ext == "apk" && v.apk.ApkParsed?) || (ext == "upk" && v.upk.UpkParsed?))
  {
  }

  /** A skipped row is left as it was, 'pending' included; a failed one changes only its status. */
  lemma SkipAndFailEffects(p: Package)
    ensures Applied(p, Skip) == p
    ensures Applied(p, MarkFailed) == p.(parseStatus := Failed)
  {
  }

  /**
   * Storing a manifest writes its name, version, version code and icon,
   * sets 'parsed', and replaces the alias by the first label whatever alias
   * the row had; file names, entity and id stay.
   */
  lemma StoreSetsParsedAndAlias(p: Package, m: Manifest)
    ensures Applied(p, Store(m))
      == p.(packageName := m.packageName, version := m.versionName, versionCode := m.versionCode,
            icon := m.icon, alias := FirstLabel(m), parseStatus := Parsed)
  {
  }

  /** No step puts a row back to 'pending'; a row still 'pending' afterwards was skipped. */
  lemma NoTransitionToPending(p: Package, step: ParseStep)
    ensures Applied(p, step).parseStatus == Pending ==> p.parseStatus == Pending && step == Skip
  {
  }

  /**
   * A package added through an accepted upload lies in a file the parser
   * dispatches on: its extension is "apk" or "upk".
   */
  lemma UploadedPackageDispatched(p: Package, docDir: string, entity: nat, token: string, tmpDir: string, name: string)
    requires '/' !in token && '.' !in token
    requires IsFileUploadValid(Some(name)) == Accepted
    requires p.filename == StoredPath(entity, token, tmpDir + "/" + name)
    ensures AllowedExtension(Extension(Destination(docDir, p)))
  {
    ValidUploadStoredAsPackage(entity, token, tmpDir, name);
    var e := Extension(p.filename);
    assert |e| == 3;
    ExtensionUnderDir(docDir, p.filename);
  }

  // ---------------------------------------------------------------------
  // The cron task
  // ---------------------------------------------------------------------

  /** The cron task's record; only its volume counter is modelled. */
  class CronTask {
    var volume: nat

    constructor()
      ensures volume == 0
    {
      volume := 0;
    }

    method AddVolume(n: nat)
      modifies this
      ensures volume == old(volume) + n
    {
      volume := volume + n;
    }
  }

  /** The largest number of rows one run of the cron task looks at. */
  const BatchLimit: nat := 10

  /** Positions of the 'pending' rows, in table order. */
  function PendingRows(rows: seq<Package>): (ix: seq<nat>)
    ensures forall k :: 0 <= k < |ix| ==> ix[k] < |rows| && rows[ix[k]].parseStatus == Pending
    ensures forall k, l :: 0 <= k < l < |ix| ==> ix[k] < ix[l]
    ensures forall j :: 0 <= j < |rows| && rows[j].parseStatus == Pending ==> j in ix
  {
    if rows == [] then []
    else
      var ix := PendingRows(rows[..|rows| - 1]);
      if rows[|rows| - 1].parseStatus == Pending then ix + [|rows| - 1] else ix
  }

  /** The rows the query "parse_status = 'pending' LIMIT 10" returns, in table order. */
  function Batch(rows: seq<Package>): seq<nat> {
    var ix := PendingRows(rows);
    ix[..Min(BatchLimit, |ix|)]
  }

  /** Every position of `batch` is a row of a table of `n` rows. */
  predicate InRange(n: nat, batch: seq<nat>) {
    forall k :: 0 <= k < |batch| ==> batch[k] < n
  }

  /**
   * What parseApplication does with each row's file; `verdicts[j]` is what
   * the parsers report on row j's file.
   */
  function Steps(rows: seq<Package>, docDir: string, verdicts: seq<Verdict>): (steps: seq<ParseStep>)
    requires |verdicts| == |rows|
    ensures |steps| == |rows|
  {
    seq(|rows|, j requires 0 <= j < |rows| => FileStep(rows[j], docDir, verdicts[j]))
  }

  /** The table after applying `steps` to the rows of `batch`, one after the other. */
  function RunBatch(rows: seq<Package>, batch: seq<nat>, steps: seq<ParseStep>): (after: seq<Package>)
    requires InRange(|rows|, batch) && |steps| == |rows|
    ensures |after| == |rows|
  {
    if batch == [] then rows
    else
      var before := RunBatch(rows, batch[..|batch| - 1], steps);
      var i := batch[|batch| - 1];
      before[i := Applied(before[i], steps[i])]
  }

  /** How many rows of `batch` have their metadata stored. */
  function Successes(batch: seq<nat>, steps: seq<ParseStep>): (n: nat)
    requires InRange(|steps|, batch)
    ensures n <= |batch|
  {
    if batch == [] then 0
    else
      Successes(batch[..|batch| - 1], steps) + (if steps[batch[|batch| - 1]].Store? then 1 else 0)
  }

  /**
   * cronParseApplication: parse the batch of pending rows, each read afresh
   * from the table, add one to the task's volume per successful parse, and
   * report 1 (done) whatever happened.
   */
  method CronParseApplication(table: PackageTable, task: CronTask, docDir: string, verdicts: seq<Verdict>)
    returns (cronStatus: int)
    requires |verdicts| == |table.rows|
    modifies table, task
    ensures cronStatus == 1
    ensures InRange(|old(table.rows)|, Batch(old(table.rows)))
    ensures table.rows == RunBatch(old(table.rows), Batch(old(table.rows)), Steps(old(table.rows), docDir, verdicts))
    ensures task.volume == old(task.volume) + Successes(Batch(old(table.rows)), Steps(old(table.rows), docDir, verdicts))
  {
    cronStatus := 0;
    var batch := Batch(table.rows);
    ghost var start := table.rows;
    ghost var steps := Steps(start, docDir, verdicts);
    var i := 0;
    while i < |batch|
      invariant i <= |batch|
      invariant InRange(|start|, batch)
      invariant table.rows == RunBatch(start, batch[..i], steps)
      invariant task.volume == old(task.volume) + Successes(batch[..i], steps)
    {
      PrefixInRange(|start|, batch, i);
      ParseNext(table, task, batch, i, docDir, verdicts, start, old(task.volume));
      i := i + 1;
    }
    assert batch[..i] == batch;
    cronStatus := 1;
  }

  /**
   * One turn of the cron task's loop: read row batch[i] afresh, parse it, and
   * count it when the parse succeeds.
   */
  method ParseNext(table: PackageTable, task: CronTask, batch: seq<nat>, i: nat, docDir: string, verdicts: seq<Verdict>,
                   ghost start: seq<Package>, ghost volume0: nat)
    requires |verdicts| == |start| && InRange(|start|, batch) && i < |batch|
    requires InRange(|start|, batch[..i])
    requires table.rows == RunBatch(start, batch[..i], Steps(start, docDir, verdicts))
    requires task.volume == volume0 + Successes(batch[..i], Steps(start, docDir, verdicts))
    modifies table, task
    ensures InRange(|start|, batch[..i + 1])
    ensures table.rows == RunBatch(start, batch[..i + 1], Steps(start, docDir, verdicts))
    ensures task.volume == volume0 + Successes(batch[..i + 1], Steps(start, docDir, verdicts))
  {
    ghost var steps := Steps(start, docDir, verdicts);
    ghost var before := table.rows;
    RunBatchKeepsFiles(start, batch[..i], steps, batch[i]);
    var ok := ParseRow(table, batch[i], docDir, verdicts, start);
    if ok {
      task.AddVolume(1);
    }
    PrefixStep(start, batch, i, steps, before, table.rows);
    PrefixCount(batch, i, steps, ok);
  }

  lemma PrefixInRange(n: nat, batch: seq<nat>, i: nat)
    requires InRange(n, batch) && i < |batch|
    ensures InRange(n, batch[..i]) && InRange(n, batch[..i + 1])
  {
  }

  /** A parse writes neither the file name nor the download name nor the entity. */
  lemma AppliedKeepsFile(p: Package, step: ParseStep)
    ensures Applied(p, step).filename == p.filename
    ensures Applied(p, step).dlFilename == p.dlFilename
    ensures Applied(p, step).entity == p.entity
  {
  }

  /** So every row keeps its file through a run. */
  lemma {:induction false} RunBatchKeepsFiles(rows: seq<Package>, batch: seq<nat>, steps: seq<ParseStep>, j: nat)
    requires InRange(|rows|, batch) && |steps| == |rows| && j < |rows|
    ensures RunBatch(rows, batch, steps)[j].filename == rows[j].filename
  {
    if batch != [] {
      var init := batch[..|batch| - 1];
      var i := batch[|batch| - 1];
      RunBatchKeepsFiles(rows, init, steps, j);
      AppliedKeepsFile(RunBatch(rows, init, steps)[i], steps[i]);
    }
  }

  /** The step only depends on the row's file name. */
  lemma SameFileSameStep(p: Package, q: Package, docDir: string, v: Verdict)
    requires p.filename == q.filename
    ensures FileStep(p, docDir, v) == FileStep(q, docDir, v)
  {
    assert Destination(docDir, p) == Destination(docDir, q);
  }

  /**
   * parseApplication on a row that still has the file it had at the start of
   * the run: it takes the step that file called for then.
   */
  method ParseRow(table: PackageTable, index: nat, docDir: string, verdicts: seq<Verdict>, ghost start: seq<Package>)
    returns (ok: bool)
    requires |verdicts| == |start| == |table.rows| && index < |start|
    requires table.rows[index].filename == start[index].filename
    modifies table
    ensures ok <==> Steps(start, docDir, verdicts)[index].Store?
    ensures table.rows == old(table.rows)[index := Applied(old(table.rows)[index], Steps(start, docDir, verdicts)[index])]
  {
    SameFileSameStep(table.rows[index], start[index], docDir, verdicts[index]);
    ok := table.ParseApplication(index, docDir, verdicts[index]);
  }

  /**
   * Applying one more row of the batch: from the table after the first `i`
   * rows, the step of row batch[i] gives the table after `i + 1` rows.
   */
  lemma PrefixStep(rows: seq<Package>, batch: seq<nat>, i: nat, steps: seq<ParseStep>,
                   before: seq<Package>, after: seq<Package>)
    requires InRange(|rows|, batch) && |steps| == |rows| && i < |batch|
    requires InRange(|rows|, batch[..i])
    requires before == RunBatch(rows, batch[..i], steps)
    requires after == before[batch[i] := Applied(before[batch[i]], steps[batch[i]])]
    ensures InRange(|rows|, batch[..i + 1])
    ensures after == RunBatch(rows, batch[..i + 1], steps)
  {
    var prefix := batch[..i + 1];
    assert prefix[..i] == batch[..i] && prefix[i] == batch[i];
  }

  /** ... and the count of successes grows by one exactly when that step stores a manifest. */
  lemma PrefixCount(batch: seq<nat>, i: nat, steps: seq<ParseStep>, ok: bool)
    requires InRange(|steps|, batch) && i < |batch|
    requires ok <==> steps[batch[i]].Store?
    ensures InRange(|steps|, batch[..i]) && InRange(|steps|, batch[..i + 1])
    ensures Successes(batch[..i + 1], steps) == Successes(batch[..i], steps) + (if ok then 1 else 0)
  {
    var prefix := batch[..i + 1];
    assert prefix[..i] == batch[..i] && prefix[i] == batch[i];
  }

  // ---------------------------------------------------------------------
  // What a run of the cron task does
  // ---------------------------------------------------------------------

  /**
   * The batch holds at most ten rows, all 'pending', in table order; a
   * pending row left out comes after all of them, and then the batch is full.
   */
  lemma BatchIsFirstTenPending(rows: seq<Package>)
    ensures |Batch(rows)| <= BatchLimit
    ensures InRange(|rows|, Batch(rows))
    ensures forall k :: 0 <= k < |Batch(rows)| ==> rows[Batch(rows)[k]].parseStatus == Pending
    ensures forall k, l :: 0 <= k < l < |Batch(rows)| ==> Batch(rows)[k] < Batch(rows)[l]
    ensures forall j :: 0 <= j < |rows| && rows[j].parseStatus == Pending && j !in Batch(rows) ==>
      |Batch(rows)| == BatchLimit && forall k :: 0 <= k < |Batch(rows)| ==> Batch(rows)[k] < j
  {
    var ix := PendingRows(rows);
    var b := Batch(rows);
    forall j | 0 <= j < |rows| && rows[j].parseStatus == Pending && j !in b
      ensures |b| == BatchLimit && forall k :: 0 <= k < |b| ==> b[k] < j
    {
      var t :| 0 <= t < |ix| && ix[t] == j;
      assert t >= |b|;
    }
  }

  /**
   * Applying the steps to a batch of distinct rows changes exactly the rows
   * of the batch, each as one step on its original contents would.
   */
  lemma {:induction false} RunBatchAt(rows: seq<Package>, batch: seq<nat>, steps: seq<ParseStep>, j: nat)
    requires InRange(|rows|, batch) && |steps| == |rows|
    requires forall k, l :: 0 <= k < l < |batch| ==> batch[k] != batch[l]
    requires j < |rows|
    ensures RunBatch(rows, batch, steps)[j] == if j in batch then Applied(rows[j], steps[j]) else rows[j]
  {
    if batch != [] {
      var init := batch[..|batch| - 1];
      var i := batch[|batch| - 1];
      assert InRange(|rows|, init);
      RunBatchAt(rows, init, steps, j);
      if i != j {
        assert j in batch <==> j in init;
      } else {
        RunBatchAt(rows, init, steps, i);
        assert i !in init;
      }
    }
  }

  /** A run adds to the volume at most once per row of the batch, so at most ten. */
  lemma VolumeBound(rows: seq<Package>, docDir: string, verdicts: seq<Verdict>)
    requires |verdicts| == |rows|
    ensures InRange(|rows|, Batch(rows))
    ensures Successes(Batch(rows), Steps(rows, docDir, verdicts)) <= BatchLimit
  {
    BatchIsFirstTenPending(rows);
  }

  /**
   * Rows outside the batch are left alone, and a batch row is 'pending'
   * afterwards exactly when its file was skipped: another extension, or an
   * APK the parser threw on.
   */
  lemma CronProgress(rows: seq<Package>, docDir: string, verdicts: seq<Verdict>, j: nat)
    requires |verdicts| == |rows| && j < |rows|
    ensures InRange(|rows|, Batch(rows))
    ensures j !in Batch(rows) ==> RunBatch(rows, Batch(rows), Steps(rows, docDir, verdicts))[j] == rows[j]
    ensures j in Batch(rows) ==>
      var after := RunBatch(rows, Batch(rows), Steps(rows, docDir, verdicts))[j];
      (after.parseStatus == Pending) == (FileStep(rows[j], docDir, verdicts[j]) == Skip)
  {
    BatchIsFirstTenPending(rows);
    var b := Batch(rows);
    var steps := Steps(rows, docDir, verdicts);
    RunBatchAt(rows, b, steps, j);
    if j in b {
      var k :| 0 <= k < |b| && b[k] == j;
      NoTransitionToPending(rows[j], steps[j]);
    }
  }

  /**
   * Starvation: when none of the first ten pending rows can be parsed or
   * marked failed (say every one is an APK the parser throws on), a run
   * changes nothing and the next run picks the very same batch, so the
   * pending rows behind them are never reached.
   */
  lemma CronStarves(rows: seq<Package>, docDir: string, verdicts: seq<Verdict>)
    requires |verdicts| == |rows|
    requires forall k :: 0 <= k < |Batch(rows)| ==>
      Batch(rows)[k] < |rows| && FileStep(rows[Batch(rows)[k]], docDir, verdicts[Batch(rows)[k]]) == Skip
    ensures InRange(|rows|, Batch(rows))
    ensures RunBatch(rows, Batch(rows), Steps(rows, docDir, verdicts)) == rows
    ensures Batch(RunBatch(rows, Batch(rows), Steps(rows, docDir, verdicts))) == Batch(rows)
  {
    BatchIsFirstTenPending(rows);
    var b := Batch(rows);
    var steps := Steps(rows, docDir, verdicts);
    var after := RunBatch(rows, b, steps);
    forall j | 0 <= j < |rows|
      ensures after[j] == rows[j]
    {
      RunBatchAt(rows, b, steps, j);
      if j in b {
        var k :| 0 <= k < |b| && b[k] == j;
      }
    }
  }
}
