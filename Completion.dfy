/**
 The completion state that app.py keeps in `st.session_state.completed_resources`:
 a set of resource keys that may not exist yet in a fresh session. It is created
 empty when missing (lines 83-84 and 193-194), grows by one key when a resource
 is marked (line 85) and is replaced by an empty set on reset (line 258). Here it
 is an object owned by the caller instead of an ambient session container.
 */
module Completion {
  import opened StudyPlan
  import opened ResourceKeys
  import opened Progress

  class CompletionState {
    /** Whether the session holds a completion set yet. */
    var present: bool
    /** The completion set; read only when `present`. */
    var completed: set<string>

    /** The keys marked so far: a missing set reads as empty, as line 89 treats it. */
    function Completed(): set<string>
      reads this
    {
      if present then completed else {}
    }

    /** A fresh session: no completion set yet. */
    constructor ()
      ensures !present && Completed() == {}
    {
      present := false;
      completed := {};
    }

    /** Lines 83-84 and 193-194: create the empty set when it is missing. */
    method EnsureCreated()
      modifies this
      ensures present && completed == old(Completed())
    {
      if !present {
        completed := {};
        present := true;
      }
    }

    /** Lines 81-85: mark the resource at 1-based `position` of `resourceType` as completed. */
    method MarkCompleted(resourceType: string, position: nat, resource: Resource)
      modifies this
      ensures present
      ensures Completed() == old(Completed()) + {ResourceKey(resourceType, position, resource.description)}
      ensures ResourceKey(resourceType, position, resource.description) in old(Completed())
              ==> Completed() == old(Completed())
    {
      var key := ResourceKey(resourceType, position, resource.description);
      EnsureCreated();
      completed := completed + {key};
    }

    /** Line 89: whether a key is shown as completed. */
    function IsCompleted(key: string): (b: bool)
      reads this
      ensures b <==> key in Completed()
    {
      present && key in completed
    }

    /** Line 258: the completion set becomes empty. */
    method Reset()
      modifies this
      ensures present && Completed() == {}
    {
      completed := {};
      present := true;
    }

    /** Lines 192-249: the progress view creates the set if needed, then reports on it. */
    method ShowProgress(c: Catalog) returns (report: Report)
      modifies this
      ensures present && Completed() == old(Completed())
      ensures report == ProgressReport(c, Completed())
    {
      EnsureCreated();
      report := ComputeReport(c, completed);
    }
  }

  /** Marking a resource the page lists (line 81 derives its key from the catalog position)
      keeps every completed key a key of the catalog. */
  method MarkCatalogResource(state: CompletionState, c: Catalog, s: nat, j: nat, t: nat, m: nat)
    requires s < |c| && j < |c[s].1| && t < |c[s].1[j].1| && m < |c[s].1[j].1[t].1|
    requires state.Completed() <= CatalogKeys(c)
    modifies state
    ensures state.Completed() == old(state.Completed()) + {KeyAt(c, s, j, t, m)}
    ensures state.Completed() <= CatalogKeys(c)
  {
    KeyAtInCatalog(c, s, j, t, m);
    state.MarkCompleted(c[s].1[j].1[t].0, m + 1, c[s].1[j].1[t].1[m]);
  }

  /** A worked session over a one-resource catalog: the resource marked twice counts once and
      shows 100 percent, and after a reset both figures are back to 0. */
  method SessionScenario() returns (marked: Report, afterReset: Report)
    ensures marked.completed == 1 && marked.total == 1 && marked.percent == 100.0
    ensures afterReset.completed == 0 && afterReset.total == 1 && afterReset.percent == 0.0
  {
    var r := Resource("Aula 1", "u");
    var c: Catalog := [("S1", [("Math", [("PDF", [r])])])];
    var state := new CompletionState();
    MarkCatalogResource(state, c, 0, 0, 0, 0);
    MarkCatalogResource(state, c, 0, 0, 0, 0);
    assert state.Completed() == {KeyAt(c, 0, 0, 0, 0)};
    assert CatalogTotal(c) == 1 by {
      var st := c[0].1;
      var sd := st[0].1;
      assert sd[..0] == [] && SubjectTotal(sd) == 1;
      assert st[..0] == [] && StageTotal(st) == 1;
      assert c[..0] == [];
    }
    marked := state.ShowProgress(c);
    state.Reset();
    afterReset := state.ShowProgress(c);
  }
}
