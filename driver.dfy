/** The driver loop (`main` in automation.py): for design index 0, 1, 2, ... open a
    fresh `Site`, restore the design site from the backup at that index, restore the
    live site from backup 0, then publish. An IndexError anywhere in a cycle ends the
    loop; any other exception ends only the cycle. Every cycle runs the restore wait
    under one `WaitRule`: `AsWritten` is `main` as the code runs it, `Corrected` is
    `main` with the restore wait fixed. */
module Driver {
  import opened Base
  import opened Windows
  import opened Restoring
  import opened Publishing

  /** What the browser does during one cycle: the handles read while constructing the
      site, then the two restores and the publication. */
  datatype Cycle = Cycle(startHandles: seq<Handle>, design: RestoreOracle, live: RestoreOracle, publication: PublishOracle)

  /** The oracle of a cycle answers every step `main` can take in it. */
  predicate Ready(c: Cycle)
  {
    && (exists i :: 0 <= i < |c.startHandles| && c.startHandles[i] != "")
    && Complete(c.design) && Complete(c.live)
    && |c.publication.ticks| == PublishTimeoutMinutes * 60
  }

  /** How one cycle went: the outcome of the design restore, of the live restore when
      it ran, and the result of `publish` when it ran. */
  datatype CycleReport = CycleReport(
    designIndex: nat,
    design: Outcome,
    live: Option<Outcome>,
    published: Option<Result<PublishOutcome>>)

  /** The cycle raised IndexError, which `main` answers with `break`. */
  predicate Ends(r: CycleReport)
  {
    r.design == Fail(IndexError) || r.live == Some(Fail(IndexError)) || r.published == Some(Err(IndexError))
  }

  /** One pass of the `while` body of `main`, from the registry of a new site. The live
      restore runs only when the design restore returned normally, and `publish` only
      when both did. */
  function CycleSpec(c: Cycle, designIndex: nat, rule: WaitRule): (r: CycleReport)
    requires Ready(c)
    ensures r.designIndex == designIndex
    ensures r.design == RestoreSpec(Initial(c.startHandles), designIndex, c.design, rule).outcome
    ensures r.live.Some? <==> r.design.Pass?
    ensures r.published.Some? <==> r.design.Pass? && r.live == Some(Pass)
  {
    var d := RestoreSpec(Initial(c.startHandles), designIndex, c.design, rule);
    if d.outcome.Fail? then CycleReport(designIndex, d.outcome, None, None)
    else
      var l := RestoreSpec(d.reg, 0, c.live, rule);
      if l.outcome.Fail? then CycleReport(designIndex, Pass, Some(l.outcome), None)
      else CycleReport(designIndex, Pass, Some(Pass), Some(PublishSpec(l.reg, c.publication).result))
  }

  /** A cycle ends the loop exactly when one of its restores raised IndexError, that is,
      when a backup index ran past the end of the backup list: `publish` never raises it. */
  lemma CycleEndsOnlyOnBackupIndex(c: Cycle, designIndex: nat, rule: WaitRule)
    requires Ready(c)
    ensures var r := CycleSpec(c, designIndex, rule);
      Ends(r) <==> r.design == Fail(IndexError) || r.live == Some(Fail(IndexError))
  {
    var start := Initial(c.startHandles);
    RestoreKeepsRegistry(start, designIndex, c.design, rule);
    var d := RestoreSpec(start, designIndex, c.design, rule);
    if d.outcome.Pass? {
      RestoreKeepsRegistry(d.reg, 0, c.live, rule);
      var l := RestoreSpec(d.reg, 0, c.live, rule);
      if l.outcome.Pass? {
        PublishKeepsRegistry(l.reg, c.publication);
      }
    }
  }

  /** The reports `main` keeps out of the reports its cycles would give: those in order,
      up to and including the first that raised IndexError, or all of them when none did. */
  predicate Runs(specs: seq<CycleReport>, reports: seq<CycleReport>)
  {
    && |reports| <= |specs|
    && reports == specs[..|reports|]
    && (forall j :: 0 <= j < |reports| - 1 ==> !Ends(reports[j]))
    && (|reports| < |specs| ==> reports != [] && Ends(reports[|reports| - 1]))
  }

  /** How many reports show a publication. */
  function Publications(rs: seq<CycleReport>): nat
  {
    if rs == [] then 0 else (if rs[0].published.Some? then 1 else 0) + Publications(rs[1..])
  }

  /** When every report but the last shows a publication and the last shows none, there
      is one publication fewer than there are reports. */
  lemma {:induction false} PublicationsCount(rs: seq<CycleReport>)
    requires rs != [] && rs[|rs| - 1].published.None?
    requires forall j :: 0 <= j < |rs| - 1 ==> rs[j].published.Some?
    ensures Publications(rs) == |rs| - 1
    decreases |rs|
  {
    if |rs| > 1 {
      assert forall j :: 0 <= j < |rs| - 1 ==> rs[1..][j] == rs[j + 1];
      PublicationsCount(rs[1..]);
    }
  }

  /** When the first `n` cycles go on and publish and cycle `n` ends the run without
      publishing, the run keeps `n + 1` reports and publishes `n` times. */
  lemma RunsCount(specs: seq<CycleReport>, reports: seq<CycleReport>, n: nat)
    requires n < |specs| && Runs(specs, reports)
    requires forall j :: 0 <= j < n ==> !Ends(specs[j]) && specs[j].published.Some?
    requires Ends(specs[n]) && specs[n].published.None?
    ensures |reports| == n + 1
    ensures Publications(reports) == n
  {
    assert forall j :: 0 <= j < |reports| ==> reports[j] == specs[j];
    PublicationsCount(reports);
  }

  /** The report each cycle the oracle supplies would give, were it reached. */
  function Reports(cycles: seq<Cycle>, rule: WaitRule): (rs: seq<CycleReport>)
    requires forall j :: 0 <= j < |cycles| ==> Ready(cycles[j])
    ensures |rs| == |cycles|
    ensures forall j :: 0 <= j < |rs| ==> rs[j].designIndex == j
  {
    seq(|cycles|, j requires 0 <= j < |cycles| => CycleSpec(cycles[j], j, rule))
  }

  /** Cycles `0` to `n - 1` that restore both sites go on to the next cycle, and publish. */
  lemma CyclesGoOn(cycles: seq<Cycle>, n: nat, rule: WaitRule)
    requires n <= |cycles|
    requires forall j :: 0 <= j < |cycles| ==> Ready(cycles[j])
    requires forall j :: 0 <= j < n ==> CycleSpec(cycles[j], j, rule).design.Pass? && CycleSpec(cycles[j], j, rule).live == Some(Pass)
    ensures forall j :: 0 <= j < n ==> !Ends(Reports(cycles, rule)[j]) && Reports(cycles, rule)[j].published.Some?
  {
    forall j | 0 <= j < n
      ensures !Ends(Reports(cycles, rule)[j]) && Reports(cycles, rule)[j].published.Some?
    {
      CycleEndsOnlyOnBackupIndex(cycles[j], j, rule);
    }
  }

  /** `main` stops before the cycles run out only after a restore ran past the end of
      the backup list, and every report it keeps is that of its own design index. */
  lemma RunStopsOnlyOnBackupIndex(cycles: seq<Cycle>, rule: WaitRule, reports: seq<CycleReport>)
    requires forall j :: 0 <= j < |cycles| ==> Ready(cycles[j])
    requires Runs(Reports(cycles, rule), reports)
    ensures forall j :: 0 <= j < |reports| ==> reports[j].designIndex == j
    ensures |reports| < |cycles| ==>
      var last := reports[|reports| - 1];
      last.design == Fail(IndexError) || last.live == Some(Fail(IndexError))
  {
    if |reports| < |cycles| {
      var k := |reports| - 1;
      assert reports[k] == Reports(cycles, rule)[k] == CycleSpec(cycles[k], k, rule);
      CycleEndsOnlyOnBackupIndex(cycles[k], k, rule);
    }
  }

  /** When cycles `0` to `n - 1` restore both sites and cycle `n` finds no design backup
      at index `n`, `main` runs exactly those cycles and publishes once in each but the
      last. */
  lemma DriveUntilBackupsRunOut(cycles: seq<Cycle>, n: nat, rule: WaitRule, reports: seq<CycleReport>)
    requires n < |cycles|
    requires forall j :: 0 <= j < |cycles| ==> Ready(cycles[j])
    requires forall j :: 0 <= j < n ==> CycleSpec(cycles[j], j, rule).design.Pass? && CycleSpec(cycles[j], j, rule).live == Some(Pass)
    requires CycleSpec(cycles[n], n, rule).design == Fail(IndexError)
    requires Runs(Reports(cycles, rule), reports)
    ensures |reports| == n + 1
    ensures Publications(reports) == n
  {
    CyclesGoOn(cycles, n, rule);
    var rs := Reports(cycles, rule);
    assert rs[n] == CycleSpec(cycles[n], n, rule);
    RunsCount(rs, reports, n);
  }

  /** One pass of the `while` body of `main`: construct a fresh site, restore both
      sites, then publish. */
  method RunCycle(c: Cycle, designIndex: nat, rule: WaitRule) returns (report: CycleReport)
    requires Ready(c)
    ensures report == CycleSpec(c, designIndex, rule)
  {
    var site := new Site(c.startHandles);
    // an IndexError from the design restore is re-raised as IndexError
    var design := RestoreBackup(site, designIndex, c.design, rule);
    if design.Fail? {
      return CycleReport(designIndex, design, None, None);
    }
    var live := RestoreBackup(site, 0, c.live, rule);
    if live.Fail? {
      return CycleReport(designIndex, Pass, Some(live), None);
    }
    var log, result, used := Publish(site, c.publication, PublishTimeoutMinutes);
    report := CycleReport(designIndex, Pass, Some(Pass), Some(result));
  }

  /** `main()`: `design_index` starts at -1 and is incremented at the top of every pass;
      the loop leaves by `break` on IndexError, or when the oracle has no further cycle. */
  method DriveCycles(cycles: seq<Cycle>, rule: WaitRule) returns (reports: seq<CycleReport>)
    requires forall j :: 0 <= j < |cycles| ==> Ready(cycles[j])
    ensures Runs(Reports(cycles, rule), reports)
  {
    ghost var specs := Reports(cycles, rule);
    var designIndex := -1;
    reports := [];
    while designIndex + 1 < |cycles|
      invariant -1 <= designIndex < |cycles| && |reports| == designIndex + 1
      invariant reports == specs[..|reports|]
      invariant forall j :: 0 <= j < |reports| ==> !Ends(reports[j])
    {
      designIndex := designIndex + 1;
      var report := RunCycle(cycles[designIndex], designIndex, rule);
      assert report == specs[designIndex];
      assert specs[..designIndex + 1] == reports + [report];
      if Ends(report) {
        return reports + [report];
      }
      reports := reports + [report];
    }
  }
}
