/**
 The schedule generator of app.py (`create_study_schedule`, lines 26-65). Dates
 are integer day numbers, so `(end - start).days` is `end - start` and
 `timedelta(days = d)` adds `d`.
 */
module Schedule {
  import opened StudyPlan

  /** One schedule row: a stage, its first and last day, and its subject names. */
  datatype Entry = Entry(stage: string, start: int, end: int, subjects: seq<string>)

  /** Python's `int(a / n)` for `n > 0`: the quotient truncated toward zero
      (Dafny's `/` rounds toward negative infinity for negative `a`). */
  function TruncDiv(a: int, n: int): (q: int)
    requires n > 0
    ensures a >= 0 ==> 0 <= a - q * n < n
    ensures a < 0 ==> -n < a - q * n <= 0
  {
    if a >= 0 then a / n else -((-a) / n)
  }

  /** The stages that have at least one subject, in catalog order (app.py line 33). */
  function NonEmptyStages(c: Catalog): (r: Catalog)
    ensures |r| <= |c|
    ensures forall k :: 0 <= k < |r| ==> |r[k].1| > 0
    ensures forall x :: x in r ==> x in c
  {
    if c == [] then []
    else (if |c[0].1| > 0 then [c[0]] else []) + NonEmptyStages(c[1..])
  }

  /** The loop of lines 43-63 over the stages `ws`, with `cur` the start of the next range,
      `len` the regular range length and `last` the name of the mapping's last key. */
  function Walk(ws: Catalog, cur: int, len: int, endFixed: int, last: string): seq<Entry>
    decreases |ws|
  {
    if ws == [] then []
    else if |ws[0].1| == 0 then Walk(ws[1..], cur, len, endFixed, last)
    else
      var e := if ws[0].0 == last then endFixed else cur + len - 1;
      [Entry(ws[0].0, cur, e, Names(ws[0].1))] + Walk(ws[1..], e + 1, len, endFixed, last)
  }

  /** The schedule `create_study_schedule(start, endFixed, c)` returns, as written. */
  function StudySchedule(start: int, endFixed: int, c: Catalog): seq<Entry>
  {
    var n := |NonEmptyStages(c)|;
    if n == 0 then []
    else Walk(c, start, TruncDiv(endFixed - start + 1, n), endFixed, c[|c| - 1].0)
  }

  /** The regular range length: `int(total_days_available / num_study_weeks)`. */
  function RegularLength(start: int, endFixed: int, c: Catalog): int
    requires |NonEmptyStages(c)| > 0
  {
    TruncDiv(endFixed - start + 1, |NonEmptyStages(c)|)
  }

  method CreateStudySchedule(start: int, endFixed: int, c: Catalog) returns (schedule: seq<Entry>)
    ensures schedule == StudySchedule(start, endFixed, c)
  {
    schedule := [];
    var totalDays := endFixed - start + 1;
    var n := |NonEmptyStages(c)|;
    if n == 0 {
      return;
    }
    var len := TruncDiv(totalDays, n);
    var last := c[|c| - 1].0;
    var current := start;
    var i := 0;
    while i < |c|
      invariant 0 <= i <= |c|
      invariant schedule + Walk(c[i..], current, len, endFixed, last) == Walk(c, start, len, endFixed, last)
    {
      var name, subjects := c[i].0, c[i].1;
      WalkStep(c, i, current, len, endFixed, last);
      if |subjects| > 0 {
        var weekStart := current;
        var weekEnd := weekStart + len - 1;
        if name == last {
          weekEnd := endFixed;
        }
        ghost var before := schedule;
        var entry := Entry(name, weekStart, weekEnd, Names(subjects));
        schedule := schedule + [entry];
        current := weekEnd + 1;
        assert before + ([entry] + Walk(c[i + 1..], current, len, endFixed, last))
               == schedule + Walk(c[i + 1..], current, len, endFixed, last);
      }
      i := i + 1;
    }
  }

  // ---------------------------------------------------------------------
  // Properties of one walk over the stages

  /** One step of the walk from stage `i`. */
  lemma WalkStep(c: Catalog, i: nat, cur: int, len: int, endFixed: int, last: string)
    requires i < |c|
    ensures |c[i].1| == 0 ==> Walk(c[i..], cur, len, endFixed, last) == Walk(c[i + 1..], cur, len, endFixed, last)
    ensures |c[i].1| > 0 ==>
              var e := if c[i].0 == last then endFixed else cur + len - 1;
              Walk(c[i..], cur, len, endFixed, last)
              == [Entry(c[i].0, cur, e, Names(c[i].1))] + Walk(c[i + 1..], e + 1, len, endFixed, last)
  {
    assert c[i..][1..] == c[i + 1..];
  }

  lemma {:induction false} WalkShape(ws: Catalog, cur: int, len: int, endFixed: int, last: string)
    ensures |Walk(ws, cur, len, endFixed, last)| == |NonEmptyStages(ws)|
    ensures forall k :: 0 <= k < |NonEmptyStages(ws)| ==>
              Walk(ws, cur, len, endFixed, last)[k].stage == NonEmptyStages(ws)[k].0 &&
              Walk(ws, cur, len, endFixed, last)[k].subjects == Names(NonEmptyStages(ws)[k].1)
    decreases |ws|
  {
    if ws != [] {
      var ne, rest := NonEmptyStages(ws), NonEmptyStages(ws[1..]);
      if |ws[0].1| == 0 {
        assert ne == rest;
        WalkShape(ws[1..], cur, len, endFixed, last);
      } else {
        var e := if ws[0].0 == last then endFixed else cur + len - 1;
        var w, wrest := Walk(ws, cur, len, endFixed, last), Walk(ws[1..], e + 1, len, endFixed, last);
        assert ne == [ws[0]] + rest;
        assert w == [Entry(ws[0].0, cur, e, Names(ws[0].1))] + wrest;
        WalkShape(ws[1..], e + 1, len, endFixed, last);
        assert |w| == |ne|;
        forall k | 0 <= k < |ne|
          ensures w[k].stage == ne[k].0 && w[k].subjects == Names(ne[k].1)
        {
          if k == 0 {
            assert w[0] == Entry(ws[0].0, cur, e, Names(ws[0].1)) && ne[0] == ws[0];
          } else {
            assert w[k] == wrest[k - 1] && ne[k] == rest[k - 1];
          }
        }
      }
    }
  }

  lemma {:induction false} WalkRanges(ws: Catalog, cur: int, len: int, endFixed: int, last: string)
    ensures var w := Walk(ws, cur, len, endFixed, last);
            && (|w| > 0 ==> w[0].start == cur)
            && (forall k :: 0 <= k < |w| - 1 ==> w[k + 1].start == w[k].end + 1)
            && (forall k :: 0 <= k < |w| && w[k].stage != last ==> w[k].end == w[k].start + len - 1)
            && (forall k :: 0 <= k < |w| && w[k].stage == last ==> w[k].end == endFixed)
    decreases |ws|
  {
    if ws != [] {
      if |ws[0].1| == 0 {
        WalkRanges(ws[1..], cur, len, endFixed, last);
      } else {
        var e := if ws[0].0 == last then endFixed else cur + len - 1;
        var w, wrest := Walk(ws, cur, len, endFixed, last), Walk(ws[1..], e + 1, len, endFixed, last);
        assert w == [Entry(ws[0].0, cur, e, Names(ws[0].1))] + wrest;
        WalkRanges(ws[1..], e + 1, len, endFixed, last);
        forall k | 1 <= k < |w|
          ensures w[k] == wrest[k - 1]
        {
        }
      }
    }
  }

  /** When no entry belongs to the last key, every range has the regular length and
      the k-th range is `[cur + k * len, cur + (k + 1) * len - 1]`. */
  lemma {:induction false} WalkRegular(ws: Catalog, cur: int, len: int, endFixed: int, last: string, k: nat)
    requires forall j :: 0 <= j < |Walk(ws, cur, len, endFixed, last)| ==>
               Walk(ws, cur, len, endFixed, last)[j].stage != last
    requires k < |Walk(ws, cur, len, endFixed, last)|
    ensures Walk(ws, cur, len, endFixed, last)[k].start == cur + k * len
    ensures Walk(ws, cur, len, endFixed, last)[k].end == cur + (k + 1) * len - 1
  {
    var w := Walk(ws, cur, len, endFixed, last);
    WalkRanges(ws, cur, len, endFixed, last);
    if k > 0 {
      WalkRegular(ws, cur, len, endFixed, last, k - 1);
      assert w[k].start == cur + (k - 1 + 1) * len;
    }
  }

  lemma {:induction false} NonEmptyStagesSnoc(p: Catalog, x: (string, StageData))
    ensures NonEmptyStages(p + [x]) == NonEmptyStages(p) + (if |x.1| > 0 then [x] else [])
    decreases |p|
  {
    if p == [] {
      assert [x][1..] == [];
    } else {
      assert (p + [x])[1..] == p[1..] + [x];
      NonEmptyStagesSnoc(p[1..], x);
    }
  }

  /** The catalog positions of the stages that have at least one subject, in increasing order. */
  function NonEmptyIndices(c: Catalog): seq<int>
    decreases |c|
  {
    if c == [] then []
    else NonEmptyIndices(c[..|c| - 1]) + (if |c[|c| - 1].1| > 0 then [|c| - 1] else [])
  }

  /** The positions are increasing, and a position is among them if and only if its stage
      has a subject. */
  lemma {:induction false} NonEmptyIndicesExact(c: Catalog)
    ensures var idx := NonEmptyIndices(c);
            && (forall k :: 0 <= k < |idx| ==> 0 <= idx[k] < |c|)
            && (forall k, l :: 0 <= k < l < |idx| ==> idx[k] < idx[l])
            && (forall i :: 0 <= i < |c| ==> (|c[i].1| > 0 <==> i in idx))
    decreases |c|
  {
    if c != [] {
      var p := c[..|c| - 1];
      NonEmptyIndicesExact(p);
      var ip := NonEmptyIndices(p);
      forall i | 0 <= i < |p|
        ensures |c[i].1| > 0 <==> i in NonEmptyIndices(c)
      {
        assert c[i] == p[i];
      }
    }
  }

  /** `NonEmptyStages` picks the catalog's stages at those positions, in order. */
  lemma {:induction false} NonEmptyStagesAt(c: Catalog)
    ensures var r, idx := NonEmptyStages(c), NonEmptyIndices(c);
            && |idx| == |r|
            && forall k :: 0 <= k < |idx| ==> 0 <= idx[k] < |c| && r[k] == c[idx[k]]
    decreases |c|
  {
    if c != [] {
      var p, x := c[..|c| - 1], c[|c| - 1];
      assert c == p + [x];
      NonEmptyStagesSnoc(p, x);
      NonEmptyStagesAt(p);
      var r, idx := NonEmptyStages(c), NonEmptyIndices(c);
      var rp, ip := NonEmptyStages(p), NonEmptyIndices(p);
      forall k | 0 <= k < |idx|
        ensures 0 <= idx[k] < |c| && r[k] == c[idx[k]]
      {
        if k < |ip| {
          assert idx[k] == ip[k] && r[k] == rp[k];
          assert c[ip[k]] == p[ip[k]];
        }
      }
    }
  }

  /** `NonEmptyStages` selects, in catalog order, exactly the stages with a subject: its k-th
      stage is the catalog's stage at the k-th of the increasing positions `NonEmptyIndices`,
      and a position is among them if and only if its stage has a subject. */
  lemma NonEmptyStagesSelect(c: Catalog)
    ensures var r, idx := NonEmptyStages(c), NonEmptyIndices(c);
            && |idx| == |r|
            && (forall k :: 0 <= k < |idx| ==> 0 <= idx[k] < |c| && r[k] == c[idx[k]])
            && (forall k, l :: 0 <= k < l < |idx| ==> idx[k] < idx[l])
            && (forall i :: 0 <= i < |c| ==> (|c[i].1| > 0 <==> i in idx))
  {
    NonEmptyIndicesExact(c);
    NonEmptyStagesAt(c);
  }

  /** The converse of `NonEmptyStages`' own contract: every stage with a subject is kept. */
  lemma {:induction false} NonEmptyStagesComplete(c: Catalog)
    ensures forall k :: 0 <= k < |c| && |c[k].1| > 0 ==> c[k] in NonEmptyStages(c)
  {
    NonEmptyStagesSelect(c);
    var r, idx := NonEmptyStages(c), NonEmptyIndices(c);
    forall k | 0 <= k < |c| && |c[k].1| > 0
      ensures c[k] in r
    {
      var j :| 0 <= j < |idx| && idx[j] == k;
      assert r[j] == c[k];
    }
  }

  // ---------------------------------------------------------------------
  // Properties of the schedule

  /** There are no entries exactly when no stage has a subject (app.py lines 33-39). */
  lemma ScheduleEmpty(start: int, endFixed: int, c: Catalog)
    ensures StudySchedule(start, endFixed, c) == [] <==> NonEmptyStages(c) == []
  {
    if |NonEmptyStages(c)| > 0 {
      var len := RegularLength(start, endFixed, c);
      WalkShape(c, start, len, endFixed, c[|c| - 1].0);
    }
  }

  /** One entry per non-empty stage, in catalog order, carrying that stage's subject names
      in order (app.py lines 43-45 and 56-61). */
  lemma ScheduleShape(start: int, endFixed: int, c: Catalog)
    ensures var s := StudySchedule(start, endFixed, c);
            && |s| == |NonEmptyStages(c)|
            && forall k :: 0 <= k < |s| ==>
                 s[k].stage == NonEmptyStages(c)[k].0 && s[k].subjects == Names(NonEmptyStages(c)[k].1)
  {
    if |NonEmptyStages(c)| > 0 {
      WalkShape(c, start, RegularLength(start, endFixed, c), endFixed, c[|c| - 1].0);
    }
  }

  /** The first range starts on `start`; each later one starts the day after the previous
      one ends (app.py lines 41, 47 and 63). */
  lemma ScheduleContiguous(start: int, endFixed: int, c: Catalog)
    ensures var s := StudySchedule(start, endFixed, c);
            && (|s| > 0 ==> s[0].start == start)
            && forall k :: 0 <= k < |s| - 1 ==> s[k + 1].start == s[k].end + 1
  {
    if |NonEmptyStages(c)| > 0 {
      WalkRanges(c, start, RegularLength(start, endFixed, c), endFixed, c[|c| - 1].0);
    }
  }

  /** An entry whose stage is not the mapping's last key spans the regular length
      `int((endFixed - start + 1) / n)`; the entry of the last key ends on `endFixed`
      (app.py lines 30-37 and 50-54). */
  lemma ScheduleLengths(start: int, endFixed: int, c: Catalog)
    ensures var s := StudySchedule(start, endFixed, c);
            forall k :: 0 <= k < |s| ==>
              && |c| > 0
              && (s[k].stage != c[|c| - 1].0 ==>
                    s[k].end - s[k].start + 1 == TruncDiv(endFixed - start + 1, |NonEmptyStages(c)|))
              && (s[k].stage == c[|c| - 1].0 ==> s[k].end == endFixed)
  {
    if |NonEmptyStages(c)| > 0 {
      WalkRanges(c, start, RegularLength(start, endFixed, c), endFixed, c[|c| - 1].0);
    }
  }

  /** With unique stage names, no stage with a subject before the last key carries its name. */
  lemma EarlierStagesNotLast(c: Catalog)
    requires UniqueNames(c) && |c| > 0
    ensures var r := NonEmptyStages(c[..|c| - 1]);
            forall k :: 0 <= k < |r| ==> r[k].0 != c[|c| - 1].0
  {
    var p := c[..|c| - 1];
    NonEmptyStagesAt(p);
    var r, idx := NonEmptyStages(p), NonEmptyIndices(p);
    forall k | 0 <= k < |r|
      ensures r[k].0 != c[|c| - 1].0
    {
      assert r[k] == c[idx[k]];
    }
  }

  /** When the last stage has subjects, the schedule covers `[start, endFixed]`: it starts on
      `start`, has no gaps, its final entry is the last stage and ends on `endFixed`, and only
      that entry is forced (stage names are dictionary keys, hence unique). */
  lemma ScheduleCoversWhenLastStageNonEmpty(start: int, endFixed: int, c: Catalog)
    requires UniqueNames(c)
    requires |c| > 0 && |c[|c| - 1].1| > 0
    ensures var s := StudySchedule(start, endFixed, c);
            && |s| > 0
            && s[0].start == start
            && s[|s| - 1].stage == c[|c| - 1].0
            && s[|s| - 1].end == endFixed
            && (forall k :: 0 <= k < |s| - 1 ==> s[k + 1].start == s[k].end + 1)
            && (forall k :: 0 <= k < |s| - 1 ==> s[k].end - s[k].start + 1 == RegularLength(start, endFixed, c))
  {
    var p, x := c[..|c| - 1], c[|c| - 1];
    assert c == p + [x];
    NonEmptyStagesSnoc(p, x);
    var ne := NonEmptyStages(c);
    ScheduleShape(start, endFixed, c);
    ScheduleContiguous(start, endFixed, c);
    ScheduleLengths(start, endFixed, c);
    var s := StudySchedule(start, endFixed, c);
    EarlierStagesNotLast(c);
    forall k | 0 <= k < |s| - 1
      ensures s[k].stage != x.0
    {
      assert ne[k] == NonEmptyStages(p)[k];
    }
  }

  /** Quirk of line 53: when the mapping's last stage is empty, no entry is forced to
      `endFixed`; the n ranges all have the regular length and the final one ends on
      `start + n * len - 1`. */
  lemma ScheduleLastStageEmpty(start: int, endFixed: int, c: Catalog)
    requires UniqueNames(c)
    requires |c| > 0 && |c[|c| - 1].1| == 0
    requires |NonEmptyStages(c)| > 0
    ensures var s := StudySchedule(start, endFixed, c);
            var len := RegularLength(start, endFixed, c);
            && |s| == |NonEmptyStages(c)|
            && (forall k :: 0 <= k < |s| ==> s[k].end - s[k].start + 1 == len)
            && s[|s| - 1].end == start + |s| * len - 1
  {
    var p, x := c[..|c| - 1], c[|c| - 1];
    assert c == p + [x];
    NonEmptyStagesSnoc(p, x);
    var ne := NonEmptyStages(c);
    var len := RegularLength(start, endFixed, c);
    var last := x.0;
    WalkShape(c, start, len, endFixed, last);
    WalkRanges(c, start, len, endFixed, last);
    var s := StudySchedule(start, endFixed, c);
    EarlierStagesNotLast(c);
    assert ne == NonEmptyStages(p);
    WalkRegular(c, start, len, endFixed, last, |s| - 1);
  }

  /** The case of the concrete plan: 277 available days (day 0 to day 276) and five non-empty
      stages with the last one non-empty give four 55-day ranges and a fifth from day 220
      that is forced to end on day 276. */
  lemma FiveStagePlan(c: Catalog)
    requires UniqueNames(c) && |c| > 0 && |c[|c| - 1].1| > 0
    requires |NonEmptyStages(c)| == 5
    ensures var s := StudySchedule(0, 276, c);
            && |s| == 5
            && (forall k :: 0 <= k < 4 ==> s[k].start == 55 * k && s[k].end == 55 * k + 54)
            && s[4].start == 220 && s[4].end == 276
  {
    var s := StudySchedule(0, 276, c);
    assert RegularLength(0, 276, c) == 55;
    ScheduleShape(0, 276, c);
    ScheduleCoversWhenLastStageNonEmpty(0, 276, c);
    assert s[0].start == 0 && s[0].end == 54;
    assert s[1].start == 55 && s[1].end == 109;
    assert s[2].start == 110 && s[2].end == 164;
    assert s[3].start == 165 && s[3].end == 219;
  }

  // ---------------------------------------------------------------------
  // The evidently intended rule: force the last NON-EMPTY stage

  /** A walk over stages that are all non-empty, forcing the final one to `endFixed`. */
  function IntendedWalk(ws: Catalog, cur: int, len: int, endFixed: int): seq<Entry>
    decreases |ws|
  {
    if ws == [] then []
    else
      var e := if |ws| == 1 then endFixed else cur + len - 1;
      [Entry(ws[0].0, cur, e, Names(ws[0].1))] + IntendedWalk(ws[1..], e + 1, len, endFixed)
  }

  /** The schedule that the comment at line 53 describes. */
  function IntendedSchedule(start: int, endFixed: int, c: Catalog): seq<Entry>
  {
    var ne := NonEmptyStages(c);
    if |ne| == 0 then [] else IntendedWalk(ne, start, TruncDiv(endFixed - start + 1, |ne|), endFixed)
  }

  lemma {:induction false} IntendedWalkRanges(ws: Catalog, cur: int, len: int, endFixed: int)
    ensures var w := IntendedWalk(ws, cur, len, endFixed);
            && |w| == |ws|
            && (|w| > 0 ==> w[0].start == cur && w[|w| - 1].end == endFixed)
            && (forall k :: 0 <= k < |w| ==> w[k].stage == ws[k].0 && w[k].subjects == Names(ws[k].1))
            && (forall k :: 0 <= k < |w| - 1 ==> w[k + 1].start == w[k].end + 1)
            && (forall k :: 0 <= k < |w| - 1 ==> w[k].end == w[k].start + len - 1)
    decreases |ws|
  {
    if ws != [] {
      var e := if |ws| == 1 then endFixed else cur + len - 1;
      IntendedWalkRanges(ws[1..], e + 1, len, endFixed);
    }
  }

  /** With the intended rule the schedule always covers `[start, endFixed]` when some stage
      has subjects, whatever the last key of the mapping holds. */
  lemma IntendedScheduleCovers(start: int, endFixed: int, c: Catalog)
    requires |NonEmptyStages(c)| > 0
    ensures var s := IntendedSchedule(start, endFixed, c);
            && |s| == |NonEmptyStages(c)|
            && s[0].start == start
            && s[|s| - 1].end == endFixed
            && (forall k :: 0 <= k < |s| ==>
                  s[k].stage == NonEmptyStages(c)[k].0 && s[k].subjects == Names(NonEmptyStages(c)[k].1))
            && (forall k :: 0 <= k < |s| - 1 ==> s[k + 1].start == s[k].end + 1)
            && (forall k :: 0 <= k < |s| - 1 ==> s[k].end - s[k].start + 1 == RegularLength(start, endFixed, c))
  {
    IntendedWalkRanges(NonEmptyStages(c), start, RegularLength(start, endFixed, c), endFixed);
  }

  /** The catalog of the counterexample: stages A and B have a subject, the last key C has none. */
  function QuirkCatalog(): Catalog
  {
    [("A", [("a", [])]), ("B", [("b", [])]), ("C", [])]
  }

  lemma QuirkCatalogStages()
    ensures NonEmptyStages(QuirkCatalog()) == [("A", [("a", [])]), ("B", [("b", [])])]
    ensures TruncDiv(11, 2) == 5
  {
    var c := QuirkCatalog();
    assert c[1..] == [("B", [("b", [])]), ("C", [])];
    assert c[1..][1..] == [("C", [])];
    assert c[1..][1..][1..] == [];
    assert NonEmptyStages(c[1..][1..]) == [];
    assert NonEmptyStages(c[1..]) == [("B", [("b", [])])];
  }

  /** As written: from day 0 to day 10 the code stops on day 9. */
  lemma QuirkAsWritten()
    ensures StudySchedule(0, 10, QuirkCatalog()) == [Entry("A", 0, 4, ["a"]), Entry("B", 5, 9, ["b"])]
  {
    var c := QuirkCatalog();
    QuirkCatalogStages();
    assert c[1..] == [("B", [("b", [])]), ("C", [])];
    assert c[1..][1..] == [("C", [])];
    assert c[1..][1..][1..] == [];
    assert Names(c[0].1) == ["a"];
    assert Names(c[1].1) == ["b"];
    assert Walk(c[1..][1..], 10, 5, 10, "C") == [];
    assert Walk(c[1..], 5, 5, 10, "C") == [Entry("B", 5, 9, ["b"])];
  }

  /** As intended: stage B ends on day 10. */
  lemma QuirkIntended()
    ensures IntendedSchedule(0, 10, QuirkCatalog()) == [Entry("A", 0, 4, ["a"]), Entry("B", 5, 10, ["b"])]
  {
    var ne: Catalog := [("A", [("a", [])]), ("B", [("b", [])])];
    QuirkCatalogStages();
    assert ne[1..] == [("B", [("b", [])])];
    assert ne[1..][1..] == [];
    assert Names(ne[0].1) == ["a"];
    assert Names(ne[1].1) == ["b"];
    assert IntendedWalk(ne[1..], 5, 5, 10) == [Entry("B", 5, 10, ["b"])];
  }

  /** The input that shows the quirk: stages A and B have a subject, the last key C is empty;
      from day 0 to day 10 the code stops on day 9 and leaves day 10 unplanned, while the
      intended rule ends stage B on day 10. */
  lemma LastStageEmptyLeavesDayUnplanned()
    ensures var c: Catalog := [("A", [("a", [])]), ("B", [("b", [])]), ("C", [])];
            && StudySchedule(0, 10, c) == [Entry("A", 0, 4, ["a"]), Entry("B", 5, 9, ["b"])]
            && IntendedSchedule(0, 10, c) == [Entry("A", 0, 4, ["a"]), Entry("B", 5, 10, ["b"])]
  {
    QuirkAsWritten();
    QuirkIntended();
  }
}
