/**
 The progress figures of the "Progresso" view of app.py (lines 196-249): the
 total number of resources, the overall completion percentage, and the
 per-stage percentages. Percentages are exact `real`s (the page rounds them for
 display). Every specification function is defined on a prefix plus its last
 element, the way the source's loops accumulate.
 */
module Progress {
  import opened StudyPlan
  import opened ResourceKeys

  // ---------------------------------------------------------------------
  // Totals (app.py lines 200-203 and 238-240)

  function SubjectTotal(sd: SubjectData): nat
    decreases |sd|
  {
    if sd == [] then 0 else SubjectTotal(sd[..|sd| - 1]) + |sd[|sd| - 1].1|
  }

  function StageTotal(st: StageData): nat
    decreases |st|
  {
    if st == [] then 0 else StageTotal(st[..|st| - 1]) + SubjectTotal(st[|st| - 1].1)
  }

  function CatalogTotal(c: Catalog): nat
    decreases |c|
  {
    if c == [] then 0 else CatalogTotal(c[..|c| - 1]) + StageTotal(c[|c| - 1].1)
  }

  // ---------------------------------------------------------------------
  // Completed resources of a stage (app.py lines 241-245): a resource counts when
  // its derived key is in the completion set.

  /** The completed resources of one resource-type list; the i-th resource (1-based) has key
      `ResourceKey(resourceType, i, description)`. */
  function ListCompleted(resourceType: string, rs: seq<Resource>, done: set<string>): nat
    decreases |rs|
  {
    if rs == [] then 0
    else
      ListCompleted(resourceType, rs[..|rs| - 1], done)
      + (if ResourceKey(resourceType, |rs|, rs[|rs| - 1].description) in done then 1 else 0)
  }

  function SubjectCompleted(sd: SubjectData, done: set<string>): nat
    decreases |sd|
  {
    if sd == [] then 0
    else SubjectCompleted(sd[..|sd| - 1], done) + ListCompleted(sd[|sd| - 1].0, sd[|sd| - 1].1, done)
  }

  function StageCompleted(st: StageData, done: set<string>): nat
    decreases |st|
  {
    if st == [] then 0
    else StageCompleted(st[..|st| - 1], done) + SubjectCompleted(st[|st| - 1].1, done)
  }

  // ---------------------------------------------------------------------
  // The keys the catalog gives rise to

  function ListKeys(resourceType: string, rs: seq<Resource>): set<string>
    decreases |rs|
  {
    if rs == [] then {}
    else ListKeys(resourceType, rs[..|rs| - 1]) + {ResourceKey(resourceType, |rs|, rs[|rs| - 1].description)}
  }

  function SubjectKeys(sd: SubjectData): set<string>
    decreases |sd|
  {
    if sd == [] then {} else SubjectKeys(sd[..|sd| - 1]) + ListKeys(sd[|sd| - 1].0, sd[|sd| - 1].1)
  }

  function StageKeys(st: StageData): set<string>
    decreases |st|
  {
    if st == [] then {} else StageKeys(st[..|st| - 1]) + SubjectKeys(st[|st| - 1].1)
  }

  function CatalogKeys(c: Catalog): set<string>
    decreases |c|
  {
    if c == [] then {} else CatalogKeys(c[..|c| - 1]) + StageKeys(c[|c| - 1].1)
  }

  /** The key of resource `m` (0-based) of resource type `t` of subject `j` of stage `s`. */
  function KeyAt(c: Catalog, s: nat, j: nat, t: nat, m: nat): string
    requires s < |c| && j < |c[s].1| && t < |c[s].1[j].1| && m < |c[s].1[j].1[t].1|
  {
    ResourceKey(c[s].1[j].1[t].0, m + 1, c[s].1[j].1[t].1[m].description)
  }

  // ---------------------------------------------------------------------
  // Percentages

  /** `(part / whole) * 100` in exact arithmetic. */
  function Percent(part: nat, whole: nat): (p: real)
    requires whole > 0
    ensures p * (whole as real) == (part as real) * 100.0
    ensures part <= whole ==> 0.0 <= p <= 100.0
    ensures part == whole ==> p == 100.0
    ensures part == 0 ==> p == 0.0
  {
    PercentBounds(part, whole);
    (part as real / whole as real) * 100.0
  }

  lemma PercentBounds(part: nat, whole: nat)
    requires whole > 0
    ensures 0.0 <= (part as real / whole as real) * 100.0
    ensures part <= whole ==> (part as real / whole as real) * 100.0 <= 100.0
    ensures part == whole ==> (part as real / whole as real) * 100.0 == 100.0
  {
    var q := part as real / whole as real;
    assert q * (whole as real) == part as real;
    if part <= whole {
      assert q <= 1.0;
    }
  }

  /** The overall percentage of lines 215-220: the placeholder 0 when there is no resource. */
  function OverallPercent(completed: nat, total: nat): (p: real)
    ensures total == 0 ==> p == 0.0
    ensures total > 0 ==> p * (total as real) == (completed as real) * 100.0
  {
    if total > 0 then Percent(completed, total) else 0.0
  }

  /** The per-stage percentages of lines 230-249, in catalog order: only stages that have
      a subject and at least one resource appear. */
  function StageProgress(c: Catalog, done: set<string>): seq<(string, real)>
    decreases |c|
  {
    if c == [] then []
    else
      var rest := StageProgress(c[..|c| - 1], done);
      var name, st := c[|c| - 1].0, c[|c| - 1].1;
      if |st| > 0 && StageTotal(st) > 0 then rest + [(name, Percent(StageCompleted(st, done), StageTotal(st)))]
      else rest
  }

  /** What the progress view shows. */
  datatype Report = Report(completed: nat, total: nat, percent: real, perStage: seq<(string, real)>)

  /** The progress view computed from the catalog and the completion set: the completed figure
      is the SIZE of the set (line 198); the per-stage chart is drawn only when the catalog has
      a resource (line 223). */
  function ProgressReport(c: Catalog, done: set<string>): Report
  {
    var total := CatalogTotal(c);
    Report(|done|, total, OverallPercent(|done|, total),
           if total > 0 then StageProgress(c, done) else [])
  }

  // ---------------------------------------------------------------------
  // The loops

  /** Lines 197-203: the sum of all resource-list lengths. */
  method CountTotalResources(c: Catalog) returns (total: nat)
    ensures total == CatalogTotal(c)
  {
    total := 0;
    var i := 0;
    while i < |c|
      invariant 0 <= i <= |c|
      invariant total == CatalogTotal(c[..i])
    {
      var st := c[i].1;
      var j := 0;
      while j < |st|
        invariant 0 <= j <= |st|
        invariant total == CatalogTotal(c[..i]) + StageTotal(st[..j])
      {
        var sd := st[j].1;
        var k := 0;
        while k < |sd|
          invariant 0 <= k <= |sd|
          invariant total == CatalogTotal(c[..i]) + StageTotal(st[..j]) + SubjectTotal(sd[..k])
        {
          total := total + |sd[k].1|;
          assert sd[..k + 1][..k] == sd[..k];
          k := k + 1;
        }
        assert sd[..k] == sd;
        assert st[..j + 1][..j] == st[..j];
        j := j + 1;
      }
      assert st[..j] == st;
      assert c[..i + 1][..i] == c[..i];
      i := i + 1;
    }
    assert c[..i] == c;
  }

  /** Lines 235-245: the resource total and the completed count of one stage. */
  method CountStage(st: StageData, done: set<string>) returns (weekTotal: nat, weekCompleted: nat)
    ensures weekTotal == StageTotal(st)
    ensures weekCompleted == StageCompleted(st, done)
  {
    weekTotal, weekCompleted := 0, 0;
    var j := 0;
    while j < |st|
      invariant 0 <= j <= |st|
      invariant weekTotal == StageTotal(st[..j])
      invariant weekCompleted == StageCompleted(st[..j], done)
    {
      var sd := st[j].1;
      var k := 0;
      while k < |sd|
        invariant 0 <= k <= |sd|
        invariant weekTotal == StageTotal(st[..j]) + SubjectTotal(sd[..k])
        invariant weekCompleted == StageCompleted(st[..j], done) + SubjectCompleted(sd[..k], done)
      {
        var resourceType, rs := sd[k].0, sd[k].1;
        weekTotal := weekTotal + |rs|;
        var m := 0;
        while m < |rs|
          invariant 0 <= m <= |rs|
          invariant weekCompleted == StageCompleted(st[..j], done) + SubjectCompleted(sd[..k], done)
                                     + ListCompleted(resourceType, rs[..m], done)
        {
          var key := ResourceKey(resourceType, m + 1, rs[m].description);
          if key in done {
            weekCompleted := weekCompleted + 1;
          }
          assert rs[..m + 1][..m] == rs[..m];
          m := m + 1;
        }
        assert rs[..m] == rs;
        assert sd[..k + 1][..k] == sd[..k];
        k := k + 1;
      }
      assert sd[..k] == sd;
      assert st[..j + 1][..j] == st[..j];
      j := j + 1;
    }
    assert st[..j] == st;
  }

  /** Lines 230-249: the per-stage percentages. */
  method ComputeStageProgress(c: Catalog, done: set<string>) returns (progress: seq<(string, real)>)
    ensures progress == StageProgress(c, done)
  {
    progress := [];
    var i := 0;
    while i < |c|
      invariant 0 <= i <= |c|
      invariant progress == StageProgress(c[..i], done)
    {
      assert c[..i + 1][..i] == c[..i];
      var name, st := c[i].0, c[i].1;
      if |st| > 0 {
        var weekTotal, weekCompleted := CountStage(st, done);
        if weekTotal > 0 {
          progress := progress + [(name, Percent(weekCompleted, weekTotal))];
        }
      }
      i := i + 1;
    }
    assert c[..i] == c;
  }

  /** Lines 197-249 after the completion set exists. */
  method ComputeReport(c: Catalog, done: set<string>) returns (report: Report)
    ensures report == ProgressReport(c, done)
  {
    var completed := |done|;
    var total := CountTotalResources(c);
    var perStage := [];
    if total > 0 {
      perStage := ComputeStageProgress(c, done);
    }
    report := Report(completed, total, OverallPercent(completed, total), perStage);
  }

  // ---------------------------------------------------------------------
  // Properties

  lemma {:induction false} ListCompletedBound(resourceType: string, rs: seq<Resource>, done: set<string>)
    ensures ListCompleted(resourceType, rs, done) <= |rs|
    ensures ListKeys(resourceType, rs) <= done ==> ListCompleted(resourceType, rs, done) == |rs|
    ensures ListKeys(resourceType, rs) !! done ==> ListCompleted(resourceType, rs, done) == 0
    decreases |rs|
  {
    if rs != [] {
      ListCompletedBound(resourceType, rs[..|rs| - 1], done);
    }
  }

  lemma {:induction false} SubjectCompletedBound(sd: SubjectData, done: set<string>)
    ensures SubjectCompleted(sd, done) <= SubjectTotal(sd)
    ensures SubjectKeys(sd) <= done ==> SubjectCompleted(sd, done) == SubjectTotal(sd)
    ensures SubjectKeys(sd) !! done ==> SubjectCompleted(sd, done) == 0
    decreases |sd|
  {
    if sd != [] {
      SubjectCompletedBound(sd[..|sd| - 1], done);
      ListCompletedBound(sd[|sd| - 1].0, sd[|sd| - 1].1, done);
    }
  }

  /** A stage's completed count lies between 0 and its total; it reaches the total when every
      key of the stage is in the set and is 0 when none is. */
  lemma {:induction false} StageCompletedBound(st: StageData, done: set<string>)
    ensures StageCompleted(st, done) <= StageTotal(st)
    ensures StageKeys(st) <= done ==> StageCompleted(st, done) == StageTotal(st)
    ensures StageKeys(st) !! done ==> StageCompleted(st, done) == 0
    decreases |st|
  {
    if st != [] {
      StageCompletedBound(st[..|st| - 1], done);
      SubjectCompletedBound(st[|st| - 1].1, done);
    }
  }

  /** Exactly the stages with a subject and a positive total appear, each with its own
      percentage, which lies between 0 and 100. */
  lemma {:induction false} StageProgressEntries(c: Catalog, done: set<string>)
    ensures forall e :: e in StageProgress(c, done) ==>
              0.0 <= e.1 <= 100.0 &&
              exists i :: 0 <= i < |c| && c[i].0 == e.0 && |c[i].1| > 0 && StageTotal(c[i].1) > 0 &&
                          e.1 == Percent(StageCompleted(c[i].1, done), StageTotal(c[i].1))
    ensures forall i :: 0 <= i < |c| && |c[i].1| > 0 && StageTotal(c[i].1) > 0 ==>
              (c[i].0, Percent(StageCompleted(c[i].1, done), StageTotal(c[i].1))) in StageProgress(c, done)
    decreases |c|
  {
    if c != [] {
      var p := c[..|c| - 1];
      StageProgressEntries(p, done);
      StageCompletedBound(c[|c| - 1].1, done);
      forall e | e in StageProgress(p, done)
        ensures exists i :: 0 <= i < |c| && c[i].0 == e.0 && |c[i].1| > 0 && StageTotal(c[i].1) > 0 &&
                            e.1 == Percent(StageCompleted(c[i].1, done), StageTotal(c[i].1))
      {
        var i :| 0 <= i < |p| && p[i].0 == e.0 && |p[i].1| > 0 && StageTotal(p[i].1) > 0 &&
                 e.1 == Percent(StageCompleted(p[i].1, done), StageTotal(p[i].1));
        assert c[i] == p[i];
      }
      forall i | 0 <= i < |c| - 1 && |c[i].1| > 0 && StageTotal(c[i].1) > 0
        ensures (c[i].0, Percent(StageCompleted(c[i].1, done), StageTotal(c[i].1))) in StageProgress(c, done)
      {
        assert p[i] == c[i];
      }
    }
  }

  /** Every completion set makes a stage whose keys are all marked show 100, and the empty
      set makes every stage show 0. */
  lemma StagePercentExtremes(st: StageData, done: set<string>)
    requires StageTotal(st) > 0
    ensures StageKeys(st) <= done ==> Percent(StageCompleted(st, done), StageTotal(st)) == 100.0
    ensures Percent(StageCompleted(st, {}), StageTotal(st)) == 0.0
  {
    StageCompletedBound(st, done);
    StageCompletedBound(st, {});
  }

  lemma {:induction false} ListKeysBound(resourceType: string, rs: seq<Resource>)
    ensures |ListKeys(resourceType, rs)| <= |rs|
    decreases |rs|
  {
    if rs != [] {
      ListKeysBound(resourceType, rs[..|rs| - 1]);
    }
  }

  lemma {:induction false} SubjectKeysBound(sd: SubjectData)
    ensures |SubjectKeys(sd)| <= SubjectTotal(sd)
    decreases |sd|
  {
    if sd != [] {
      SubjectKeysBound(sd[..|sd| - 1]);
      ListKeysBound(sd[|sd| - 1].0, sd[|sd| - 1].1);
    }
  }

  lemma {:induction false} StageKeysBound(st: StageData)
    ensures |StageKeys(st)| <= StageTotal(st)
    decreases |st|
  {
    if st != [] {
      StageKeysBound(st[..|st| - 1]);
      SubjectKeysBound(st[|st| - 1].1);
    }
  }

  /** The catalog gives rise to at most as many distinct keys as it has resources (fewer when
      keys collide). */
  lemma {:induction false} CatalogKeysBound(c: Catalog)
    ensures |CatalogKeys(c)| <= CatalogTotal(c)
    decreases |c|
  {
    if c != [] {
      CatalogKeysBound(c[..|c| - 1]);
      StageKeysBound(c[|c| - 1].1);
    }
  }

  lemma {:induction false} ListKeyIn(resourceType: string, rs: seq<Resource>, m: nat)
    requires m < |rs|
    ensures ResourceKey(resourceType, m + 1, rs[m].description) in ListKeys(resourceType, rs)
    decreases |rs|
  {
    if m < |rs| - 1 {
      ListKeyIn(resourceType, rs[..|rs| - 1], m);
    }
  }

  lemma {:induction false} SubjectKeyIn(sd: SubjectData, t: nat, m: nat)
    requires t < |sd| && m < |sd[t].1|
    ensures ResourceKey(sd[t].0, m + 1, sd[t].1[m].description) in SubjectKeys(sd)
    decreases |sd|
  {
    if t < |sd| - 1 {
      SubjectKeyIn(sd[..|sd| - 1], t, m);
    } else {
      ListKeyIn(sd[t].0, sd[t].1, m);
    }
  }

  lemma {:induction false} StageKeyIn(st: StageData, j: nat, t: nat, m: nat)
    requires j < |st| && t < |st[j].1| && m < |st[j].1[t].1|
    ensures ResourceKey(st[j].1[t].0, m + 1, st[j].1[t].1[m].description) in StageKeys(st)
    decreases |st|
  {
    if j < |st| - 1 {
      StageKeyIn(st[..|st| - 1], j, t, m);
    } else {
      SubjectKeyIn(st[j].1, t, m);
    }
  }

  /** The key that the page derives for a catalog resource (line 81) is one of the catalog's keys. */
  lemma {:induction false} KeyAtInCatalog(c: Catalog, s: nat, j: nat, t: nat, m: nat)
    requires s < |c| && j < |c[s].1| && t < |c[s].1[j].1| && m < |c[s].1[j].1[t].1|
    ensures KeyAt(c, s, j, t, m) in CatalogKeys(c)
    decreases |c|
  {
    if s < |c| - 1 {
      KeyAtInCatalog(c[..|c| - 1], s, j, t, m);
    } else {
      StageKeyIn(c[s].1, j, t, m);
    }
  }

  /** When every completed key came from the catalog, the report's completed figure is at most
      its total, the overall percentage lies between 0 and 100, and so does every stage's. */
  lemma ReportBounds(c: Catalog, done: set<string>)
    requires done <= CatalogKeys(c)
    ensures var r := ProgressReport(c, done);
            && r.completed <= r.total
            && 0.0 <= r.percent <= 100.0
            && forall e :: e in r.perStage ==> 0.0 <= e.1 <= 100.0
  {
    CatalogKeysBound(c);
    assert |done| <= |CatalogKeys(c)| by {
      assert CatalogKeys(c) == done + (CatalogKeys(c) - done);
    }
    StageProgressEntries(c, done);
  }

  /** Quirk of lines 198 and 244: two stages whose resources have the same type, position and
      20-character prefix share one key. Marking it once shows both stages at 100 while the
      overall figure counts it once, at 50. */
  lemma SharedKeyAcrossStages()
    ensures var r := Resource("Aula 1", "u");
            var c: Catalog := [("S1", [("Math", [("PDF", [r])])]), ("S2", [("Law", [("PDF", [r])])])];
            var done := {ResourceKey("PDF", 1, "Aula 1")};
            && KeyAt(c, 0, 0, 0, 0) == KeyAt(c, 1, 0, 0, 0)
            && ProgressReport(c, done) == Report(1, 2, 50.0, [("S1", 100.0), ("S2", 100.0)])
  {
    var r := Resource("Aula 1", "u");
    var c: Catalog := [("S1", [("Math", [("PDF", [r])])]), ("S2", [("Law", [("PDF", [r])])])];
    var done := {ResourceKey("PDF", 1, "Aula 1")};
    var st1, st2 := c[0].1, c[1].1;
    assert c[..1] == [c[0]];
    assert [c[0]][..0] == [];
    assert st1[..0] == [] && st1[0].1[..0] == [] && st1[0].1[0].1[..0] == [];
    assert st2[..0] == [] && st2[0].1[..0] == [] && st2[0].1[0].1[..0] == [];
    assert ListCompleted("PDF", [r], done) == 1;
    assert SubjectTotal(st1[0].1) == 1 && SubjectCompleted(st1[0].1, done) == 1;
    assert SubjectTotal(st2[0].1) == 1 && SubjectCompleted(st2[0].1, done) == 1;
    assert StageTotal(st1) == 1 && StageCompleted(st1, done) == 1;
    assert StageTotal(st2) == 1 && StageCompleted(st2, done) == 1;
    assert CatalogTotal(c[..1]) == 1;
    assert CatalogTotal(c) == 2;
    assert StageProgress(c[..1], done) == [("S1", 100.0)];
  }
}
