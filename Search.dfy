/**
 The resource search of app.py (lines 269-283): a case-insensitive substring
 match of the search term against every resource's description, scanning the
 catalog stage by stage, subject by subject, type by type and resource by
 resource. Lower-casing is ASCII only.
 */
module Search {
  import opened StudyPlan

  /** One search result, with the fields of lines 277-283. */
  datatype Hit = Hit(stage: string, subject: string, resourceType: string, description: string, url: string)

  function LowerChar(ch: char): char
  {
    if 'A' <= ch <= 'Z' then (ch as int + 32) as char else ch
  }

  /** `s.lower()` on ASCII letters. */
  function Lower(s: string): string
  {
    seq(|s|, i requires 0 <= i < |s| => LowerChar(s[i]))
  }

  /** Python's `needle in haystack` on strings. */
  function Contains(haystack: string, needle: string): bool
    decreases |haystack|
  {
    if needle <= haystack then true
    else if haystack == [] then false
    else Contains(haystack[1..], needle)
  }

  /** The needle occurs in the haystack starting at index `i`. */
  predicate OccursAt(haystack: string, needle: string, i: int)
  {
    0 <= i <= |haystack| - |needle| && haystack[i..i + |needle|] == needle
  }

  /** The needle occurs somewhere in the haystack. */
  ghost predicate Occurs(haystack: string, needle: string)
  {
    exists i :: OccursAt(haystack, needle, i)
  }

  lemma OccursAtStart(haystack: string, needle: string)
    ensures OccursAt(haystack, needle, 0) <==> needle <= haystack
  {
    assert |needle| <= |haystack| ==> haystack[0..|needle|] == haystack[..|needle|];
  }

  /** An occurrence in the tail is an occurrence one position further in the whole. */
  lemma OccursShift(haystack: string, needle: string, i: int)
    requires haystack != [] && 0 <= i
    ensures OccursAt(haystack[1..], needle, i) <==> OccursAt(haystack, needle, i + 1)
  {
    if 0 <= i <= |haystack| - 1 - |needle| {
      assert haystack[1..][i..i + |needle|] == haystack[i + 1..i + 1 + |needle|];
    }
  }

  /** `Contains` holds exactly when the needle occurs at some position. */
  lemma {:induction false} ContainsOccurrence(haystack: string, needle: string)
    ensures Contains(haystack, needle) <==> exists i :: OccursAt(haystack, needle, i)
    decreases |haystack|
  {
    if needle <= haystack {
      assert OccursAt(haystack, needle, 0);
    } else if haystack == [] {
    } else {
      var tail := haystack[1..];
      OccursAtStart(haystack, needle);
      ContainsOccurrence(tail, needle);
      if exists i :: OccursAt(haystack, needle, i) {
        var i :| OccursAt(haystack, needle, i);
        OccursShift(haystack, needle, i - 1);
      }
      if exists i :: OccursAt(tail, needle, i) {
        var i :| OccursAt(tail, needle, i);
        OccursShift(haystack, needle, i);
      }
    }
  }

  /** A needle holding a character the haystack lacks is not contained in it. */
  lemma MissingCharNoMatch(haystack: string, needle: string, ch: char)
    requires ch in needle && ch !in haystack
    ensures !Contains(haystack, needle)
  {
    ContainsOccurrence(haystack, needle);
  }

  /** Line 276: `search_term.lower() in description.lower()`. */
  predicate Matches(description: string, term: string): (m: bool)
    ensures m <==> Occurs(Lower(description), Lower(term))
    ensures term == [] ==> m
  {
    ContainsOccurrence(Lower(description), Lower(term));
    assert OccursAt(Lower(description), Lower(term), 0) <== term == [];
    Contains(Lower(description), Lower(term))
  }

  // ---------------------------------------------------------------------
  // The results the loops of lines 272-283 collect

  function ListHits(stage: string, subject: string, resourceType: string, rs: seq<Resource>, term: string): seq<Hit>
    decreases |rs|
  {
    if rs == [] then []
    else
      var r := rs[|rs| - 1];
      ListHits(stage, subject, resourceType, rs[..|rs| - 1], term)
      + (if Matches(r.description, term) then [Hit(stage, subject, resourceType, r.description, r.url)] else [])
  }

  function SubjectHits(stage: string, subject: string, sd: SubjectData, term: string): seq<Hit>
    decreases |sd|
  {
    if sd == [] then []
    else SubjectHits(stage, subject, sd[..|sd| - 1], term) + ListHits(stage, subject, sd[|sd| - 1].0, sd[|sd| - 1].1, term)
  }

  function StageHits(stage: string, st: StageData, term: string): seq<Hit>
    decreases |st|
  {
    if st == [] then []
    else StageHits(stage, st[..|st| - 1], term) + SubjectHits(stage, st[|st| - 1].0, st[|st| - 1].1, term)
  }

  function CatalogHits(c: Catalog, term: string): seq<Hit>
    decreases |c|
  {
    if c == [] then []
    else CatalogHits(c[..|c| - 1], term) + StageHits(c[|c| - 1].0, c[|c| - 1].1, term)
  }

  /** The results for a term: none for the empty term (line 269). */
  function SearchResults(c: Catalog, term: string): seq<Hit>
  {
    if term == [] then [] else CatalogHits(c, term)
  }

  /** Lines 275-283 for one resource-type list: append its matching resources to `results`. */
  method CollectList(results: seq<Hit>, stage: string, subject: string, resourceType: string, rs: seq<Resource>, term: string)
    returns (out: seq<Hit>)
    ensures out == results + ListHits(stage, subject, resourceType, rs, term)
  {
    out := results;
    var m := 0;
    while m < |rs|
      invariant 0 <= m <= |rs|
      invariant out == results + ListHits(stage, subject, resourceType, rs[..m], term)
    {
      var r := rs[m];
      if Matches(r.description, term) {
        out := out + [Hit(stage, subject, resourceType, r.description, r.url)];
      }
      assert rs[..m + 1][..m] == rs[..m];
      m := m + 1;
    }
    assert rs[..m] == rs;
  }

  /** Lines 274-283 for one subject. */
  method CollectSubject(results: seq<Hit>, stage: string, subject: string, sd: SubjectData, term: string)
    returns (out: seq<Hit>)
    ensures out == results + SubjectHits(stage, subject, sd, term)
  {
    out := results;
    var k := 0;
    while k < |sd|
      invariant 0 <= k <= |sd|
      invariant out == results + SubjectHits(stage, subject, sd[..k], term)
    {
      out := CollectList(out, stage, subject, sd[k].0, sd[k].1, term);
      assert sd[..k + 1][..k] == sd[..k];
      k := k + 1;
    }
    assert sd[..k] == sd;
  }

  /** Lines 273-283 for one stage. */
  method CollectStage(results: seq<Hit>, stage: string, st: StageData, term: string)
    returns (out: seq<Hit>)
    ensures out == results + StageHits(stage, st, term)
  {
    out := results;
    var j := 0;
    while j < |st|
      invariant 0 <= j <= |st|
      invariant out == results + StageHits(stage, st[..j], term)
    {
      out := CollectSubject(out, stage, st[j].0, st[j].1, term);
      assert st[..j + 1][..j] == st[..j];
      j := j + 1;
    }
    assert st[..j] == st;
  }

  /** Lines 269-283: the search results for `term`. */
  method SearchCatalog(c: Catalog, term: string) returns (results: seq<Hit>)
    ensures results == SearchResults(c, term)
  {
    results := [];
    if term == [] {
      return;
    }
    var i := 0;
    while i < |c|
      invariant 0 <= i <= |c|
      invariant results == CatalogHits(c[..i], term)
    {
      results := CollectStage(results, c[i].0, c[i].1, term);
      assert c[..i + 1][..i] == c[..i];
      i := i + 1;
    }
    assert c[..i] == c;
  }

  // ---------------------------------------------------------------------
  // A reference definition: every resource of the catalog, in order, then a filter

  function ListEntries(stage: string, subject: string, resourceType: string, rs: seq<Resource>): seq<Hit>
    decreases |rs|
  {
    if rs == [] then []
    else
      ListEntries(stage, subject, resourceType, rs[..|rs| - 1])
      + [Hit(stage, subject, resourceType, rs[|rs| - 1].description, rs[|rs| - 1].url)]
  }

  function SubjectEntries(stage: string, subject: string, sd: SubjectData): seq<Hit>
    decreases |sd|
  {
    if sd == [] then []
    else SubjectEntries(stage, subject, sd[..|sd| - 1]) + ListEntries(stage, subject, sd[|sd| - 1].0, sd[|sd| - 1].1)
  }

  function StageEntries(stage: string, st: StageData): seq<Hit>
    decreases |st|
  {
    if st == [] then []
    else StageEntries(stage, st[..|st| - 1]) + SubjectEntries(stage, st[|st| - 1].0, st[|st| - 1].1)
  }

  /** Every resource of the catalog as a result row, in stage, subject, type, position order. */
  function CatalogEntries(c: Catalog): seq<Hit>
    decreases |c|
  {
    if c == [] then []
    else CatalogEntries(c[..|c| - 1]) + StageEntries(c[|c| - 1].0, c[|c| - 1].1)
  }

  /** The rows whose description matches the term, in their order. */
  function Filter(hs: seq<Hit>, term: string): seq<Hit>
    decreases |hs|
  {
    if hs == [] then []
    else Filter(hs[..|hs| - 1], term) + (if Matches(hs[|hs| - 1].description, term) then [hs[|hs| - 1]] else [])
  }

  lemma {:induction false} FilterAppend(a: seq<Hit>, b: seq<Hit>, term: string)
    ensures Filter(a + b, term) == Filter(a, term) + Filter(b, term)
    decreases |b|
  {
    if b == [] {
      assert a + b == a;
    } else {
      assert (a + b)[..|a + b| - 1] == a + b[..|b| - 1];
      assert (a + b)[|a + b| - 1] == b[|b| - 1];
      FilterAppend(a, b[..|b| - 1], term);
    }
  }

  lemma {:induction false} FilterMembers(hs: seq<Hit>, term: string)
    ensures forall h :: h in Filter(hs, term) <==> h in hs && Matches(h.description, term)
    decreases |hs|
  {
    if hs != [] {
      FilterMembers(hs[..|hs| - 1], term);
      assert hs == hs[..|hs| - 1] + [hs[|hs| - 1]];
    }
  }

  lemma {:induction false} ListHitsFilter(stage: string, subject: string, resourceType: string, rs: seq<Resource>, term: string)
    ensures ListHits(stage, subject, resourceType, rs, term) == Filter(ListEntries(stage, subject, resourceType, rs), term)
    decreases |rs|
  {
    if rs != [] {
      var r := rs[|rs| - 1];
      var front := ListEntries(stage, subject, resourceType, rs[..|rs| - 1]);
      ListHitsFilter(stage, subject, resourceType, rs[..|rs| - 1], term);
      FilterAppend(front, [Hit(stage, subject, resourceType, r.description, r.url)], term);
      assert [Hit(stage, subject, resourceType, r.description, r.url)][..0] == [];
    }
  }

  lemma {:induction false} SubjectHitsFilter(stage: string, subject: string, sd: SubjectData, term: string)
    ensures SubjectHits(stage, subject, sd, term) == Filter(SubjectEntries(stage, subject, sd), term)
    decreases |sd|
  {
    if sd != [] {
      var last := sd[|sd| - 1];
      SubjectHitsFilter(stage, subject, sd[..|sd| - 1], term);
      ListHitsFilter(stage, subject, last.0, last.1, term);
      FilterAppend(SubjectEntries(stage, subject, sd[..|sd| - 1]), ListEntries(stage, subject, last.0, last.1), term);
    }
  }

  lemma {:induction false} StageHitsFilter(stage: string, st: StageData, term: string)
    ensures StageHits(stage, st, term) == Filter(StageEntries(stage, st), term)
    decreases |st|
  {
    if st != [] {
      var last := st[|st| - 1];
      StageHitsFilter(stage, st[..|st| - 1], term);
      SubjectHitsFilter(stage, last.0, last.1, term);
      FilterAppend(StageEntries(stage, st[..|st| - 1]), SubjectEntries(stage, last.0, last.1), term);
    }
  }

  lemma {:induction false} CatalogHitsFilter(c: Catalog, term: string)
    ensures CatalogHits(c, term) == Filter(CatalogEntries(c), term)
    decreases |c|
  {
    if c != [] {
      var last := c[|c| - 1];
      CatalogHitsFilter(c[..|c| - 1], term);
      StageHitsFilter(last.0, last.1, term);
      FilterAppend(CatalogEntries(c[..|c| - 1]), StageEntries(last.0, last.1), term);
    }
  }

  /** The search returns nothing for the empty term, and otherwise exactly the catalog's
      resources whose lower-cased description contains the lower-cased term, in catalog order. */
  lemma SearchSpecification(c: Catalog, term: string)
    ensures term == [] ==> SearchResults(c, term) == []
    ensures term != [] ==> SearchResults(c, term) == Filter(CatalogEntries(c), term)
    ensures forall h :: h in SearchResults(c, term) <==>
              term != [] && h in CatalogEntries(c) && Matches(h.description, term)
  {
    CatalogHitsFilter(c, term);
    FilterMembers(CatalogEntries(c), term);
  }

  /** "PDF" matches "Questões em PDF" and not "Apostila em Word". */
  lemma PdfExample()
    ensures Matches("Questões em PDF", "PDF")
    ensures !Matches("Apostila em Word", "PDF")
  {
    var term := Lower("PDF");
    assert term == "pdf";
    var q := Lower("Questões em PDF");
    assert q[12..15] == "pdf";
    assert OccursAt(q, term, 12);
    ContainsOccurrence(q, term);
    var w := Lower("Apostila em Word");
    assert forall i :: 0 <= i < |w| ==> w[i] != 'f';
    assert term[2] == 'f';
    MissingCharNoMatch(w, term, 'f');
  }
}
