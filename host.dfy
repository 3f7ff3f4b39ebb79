/**
 * The abstract state of the statistics engine the command runs against:
 * named datasets, each with a variable dictionary, a case count that may be
 * unknown, and its cases. Only the queries and effects the command uses are
 * represented.
 */
module Host {
  import opened Text

  /** A case (row) maps each lower-case variable name of its dataset to a value. */
  type Case<V> = map<string, V>

  /**
   * `vars` are the dataset's variable names in lower case (names compare
   * caselessly); `reportedCount` is what the engine answers for the case
   * count, negative while it is unknown; `cases` are the rows in file order.
   */
  datatype Dataset<V> = Dataset(vars: set<string>, reportedCount: int, cases: seq<Case<V>>)

  /**
   * `active` is the name the engine reports for the active dataset ("*" when
   * it has none); `datasets` is keyed by lower-case dataset name, the engine
   * resolving dataset names without regard to case.
   */
  datatype HostState<V> = HostState(active: string, datasets: map<string, Dataset<V>>)

  /** The engine always has an active dataset, named or not. */
  predicate HasActive<V>(h: HostState<V>)
  {
    Lower(h.active) in h.datasets
  }

  function ActiveDataset<V>(h: HostState<V>): Dataset<V>
    requires HasActive(h)
  {
    h.datasets[Lower(h.active)]
  }

  /**
   * The case count the command works with: the reported one, or, while that
   * is unknown (negative), the count re-read after a forced data pass
   * (`EXECUTE`), which is the number of cases.
   */
  function CaseCount<V>(d: Dataset<V>): nat
  {
    if d.reportedCount < 0 then |d.cases| else d.reportedCount
  }

  /** A known case count is the real one, and every case has the dataset's variables. */
  predicate Consistent<V>(d: Dataset<V>)
  {
    (d.reportedCount >= 0 ==> d.reportedCount == |d.cases|) &&
    forall i :: 0 <= i < |d.cases| ==> d.cases[i].Keys == d.vars
  }

  predicate ConsistentHost<V>(h: HostState<V>)
  {
    HasActive(h) && forall n :: n in h.datasets ==> Consistent(h.datasets[n])
  }

  lemma CaseCountIsSize<V>(d: Dataset<V>)
    requires Consistent(d)
    ensures CaseCount(d) == |d.cases|
  {
  }

  /** The case has a value for each of the listed variables. */
  predicate HasVars<V>(c: Case<V>, names: seq<string>)
  {
    forall i :: 0 <= i < |names| ==> Lower(names[i]) in c
  }

  predicate AllHaveVars<V>(cs: seq<Case<V>>, names: seq<string>)
  {
    forall k :: 0 <= k < |cs| ==> HasVars(cs[k], names)
  }

  /** The values an `XSAVE /KEEP=names` writes for one case, in list order. */
  function Keep<V>(c: Case<V>, names: seq<string>): (r: seq<V>)
    requires HasVars(c, names)
    ensures |r| == |names|
    ensures forall i :: 0 <= i < |names| ==> r[i] == c[Lower(names[i])]
  {
    seq(|names|, i requires 0 <= i < |names| => c[Lower(names[i])])
  }

  /** The dataset's cases restricted to `names`, one row per case. */
  function Project<V>(cs: seq<Case<V>>, names: seq<string>): (r: seq<seq<V>>)
    requires AllHaveVars(cs, names)
    ensures |r| == |cs|
    ensures forall k :: 0 <= k < |cs| ==> r[k] == Keep(cs[k], names)
  {
    if cs == [] then [] else Project(cs[..|cs| - 1], names) + [Keep(cs[|cs| - 1], names)]
  }

  /** Every listed name is a variable of a consistent dataset, so every case can be projected. */
  lemma DatasetHasVars<V>(d: Dataset<V>, names: seq<string>)
    requires Consistent(d)
    requires LowerSet(names) <= d.vars
    ensures AllHaveVars(d.cases, names)
  {
    forall k, i | 0 <= k < |d.cases| && 0 <= i < |names|
      ensures Lower(names[i]) in d.cases[k]
    {
      assert Lower(names[i]) in LowerSet(names);
    }
  }
}
