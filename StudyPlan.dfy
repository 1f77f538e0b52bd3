/**
 The study catalog: an ordered mapping stage -> subject -> resource type ->
 ordered list of resources. Python dictionaries keep insertion order, so every
 level is an ordered sequence of (name, value) pairs; the names at one level are
 unique (they are dictionary keys), which `UniqueNames` states where a proof
 needs it.
 */
module StudyPlan {

  /** One study item: its description and its link. */
  datatype Resource = Resource(description: string, url: string)

  /** A subject's material: resource type -> ordered list of resources. */
  type SubjectData = seq<(string, seq<Resource>)>

  /** A stage's subjects: subject name -> subject material. */
  type StageData = seq<(string, SubjectData)>

  /** The whole catalog: stage name -> the stage's subjects. */
  type Catalog = seq<(string, StageData)>

  /** The keys of an ordered mapping, in order (`list(d.keys())`). */
  function Names<T>(m: seq<(string, T)>): (r: seq<string>)
    ensures |r| == |m|
    ensures forall i :: 0 <= i < |m| ==> r[i] == m[i].0
  {
    if m == [] then [] else [m[0].0] + Names(m[1..])
  }

  /** The names of an ordered mapping are pairwise distinct, as dictionary keys are. */
  predicate UniqueNames<T>(m: seq<(string, T)>)
  {
    forall i, j :: 0 <= i < j < |m| ==> m[i].0 != m[j].0
  }
}
