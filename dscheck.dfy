/**
 * The precondition check run before the product is built: the active
 * dataset must be named, the two variable lists must not share a name
 * (compared caselessly), every right-hand variable must exist in the
 * right-hand dataset, and both case counts are resolved.
 */
module Check {
  import opened Wrappers
  import opened Text
  import opened Host

  /** Python's `if input2:`: a second dataset was named, and not by the empty string. */
  predicate Given(input2: Option<string>)
  {
    input2.Some? && input2.value != ""
  }

  datatype CheckError =
    | UnnamedActive                         // the active dataset is "*"
    | Overlap                               // VAR1 and VAR2 share a name
    | NoSuchDataset(name: string)           // DATASET ACTIVATE of an unknown INPUT2 fails
    | UndefinedRight(missing: set<string>)  // first message, for an INPUT2 dataset
    | UndefinedSecond(missing: set<string>) // second message, for the active dataset

  /** What a successful check returns: the active dataset's name and the two case counts. */
  datatype Checked = Checked(activeName: string, count1: nat, count2: nat)

  /** The check's outcome together with the name of the dataset it leaves active. */
  datatype CheckRun = CheckRun(result: Result<Checked, CheckError>, active: string)

  /** The dataset the VAR2 variables come from: INPUT2 when given, otherwise the active one. */
  function RightDataset<V>(h: HostState<V>, input2: Option<string>): Dataset<V>
    requires HasActive(h)
    requires Given(input2) ==> Lower(input2.value) in h.datasets
  {
    if Given(input2) then h.datasets[Lower(input2.value)] else ActiveDataset(h)
  }

  /** The lower-cased VAR2 names that are not variables of `vars`, gathered name by name. */
  function MissingNames(var2: seq<string>, vars: set<string>): (m: set<string>)
    ensures forall i :: 0 <= i < |var2| && Lower(var2[i]) !in vars ==> Lower(var2[i]) in m
    ensures forall x :: x in m ==> x !in vars && exists i :: 0 <= i < |var2| && x == Lower(var2[i])
  {
    set i | 0 <= i < |var2| && Lower(var2[i]) !in vars :: Lower(var2[i])
  }

  lemma SubsetSameSize<T>(a: set<T>, b: set<T>)
    requires a <= b
    ensures |a| == |b| <==> a == b
  {
    assert b * a == a;
    assert |b - a| == |b| - |a|;
    if |a| == |b| {
      assert |b - a| == 0;
    }
  }

  lemma MissingIsDifference(var2: seq<string>, vars: set<string>)
    ensures MissingNames(var2, vars) == LowerSet(var2) - vars
  {
  }

  /** The check, following the order of its tests in the source. */
  function Dscheck<V>(h: HostState<V>, input2: Option<string>, var1: seq<string>, var2: seq<string>): (r: CheckRun)
    requires HasActive(h)
    ensures h.active == "*" ==> r == CheckRun(Err(UnnamedActive), h.active)
    ensures h.active != "*" && LowerSet(var1) * LowerSet(var2) != {} ==> r == CheckRun(Err(Overlap), h.active)
    ensures h.active != "*" && LowerSet(var1) * LowerSet(var2) == {} &&
            Given(input2) && Lower(input2.value) !in h.datasets ==>
              r == CheckRun(Err(NoSuchDataset(Lower(input2.value))), h.active)
    ensures r.result.Ok? <==>
              h.active != "*" && LowerSet(var1) * LowerSet(var2) == {} &&
              (Given(input2) ==> Lower(input2.value) in h.datasets) &&
              LowerSet(var2) <= RightDataset(h, input2).vars
    ensures r.result.Ok? ==>
              r.active == h.active && r.result.value.activeName == h.active &&
              r.result.value.count1 == CaseCount(ActiveDataset(h)) &&
              r.result.value.count2 == CaseCount(RightDataset(h, input2))
    ensures r.result.Ok? && !Given(input2) ==> r.result.value.count2 == r.result.value.count1
  {
    var activeName := h.active;
    var v1 := LowerSet(var1);
    var v2 := LowerSet(var2);
    if activeName == "*" then CheckRun(Err(UnnamedActive), activeName)
    else if v1 * v2 != {} then CheckRun(Err(Overlap), activeName)
    else
      var in2 := if input2.Some? then Some(Lower(input2.value)) else None;
      var count1 := CaseCount(ActiveDataset(h));
      assert Given(in2) <==> Given(input2) by {
        if input2.Some? { assert |Lower(input2.value)| == |input2.value|; }
      }
      if Given(in2) then
        var name2 := in2.value;
        if name2 !in h.datasets then CheckRun(Err(NoSuchDataset(name2)), activeName)
        else
          var d2 := h.datasets[name2];
          // the caseless dictionary's names that occur in VAR2
          var varnames2 := v2 * d2.vars;
          SubsetSameSize(varnames2, v2);
          if |varnames2| != |v2| then CheckRun(Err(UndefinedRight(v2 - varnames2)), name2)
          else
            var count2 := CaseCount(d2);
            var diff := v2 - varnames2;
            if diff != {} then CheckRun(Err(UndefinedSecond(diff)), activeName)
            else CheckRun(Ok(Checked(activeName, count1, count2)), activeName)
      else
        var diff := v2 - ActiveDataset(h).vars;
        var count2 := count1;
        if diff != {} then CheckRun(Err(UndefinedSecond(diff)), activeName)
        else
          assert forall x :: x in v2 ==> x in diff || x in ActiveDataset(h).vars;
          CheckRun(Ok(Checked(activeName, count1, count2)), activeName)
  }

  /**
   * Once the name and overlap tests pass and the right-hand dataset exists,
   * the check fails exactly when some VAR2 name is missing from it, and the
   * error lists precisely the missing names. With INPUT2 the failure comes
   * while INPUT2 is active, and the check leaves it active.
   */
  lemma {:induction false} MissingNamesListed<V>(h: HostState<V>, input2: Option<string>, var1: seq<string>, var2: seq<string>)
    requires HasActive(h) && h.active != "*"
    requires LowerSet(var1) * LowerSet(var2) == {}
    requires Given(input2) ==> Lower(input2.value) in h.datasets
    ensures var m := MissingNames(var2, RightDataset(h, input2).vars);
            var r := Dscheck(h, input2, var1, var2);
            (m == {} <==> r.result.Ok?) &&
            (m != {} && Given(input2) ==> r == CheckRun(Err(UndefinedRight(m)), Lower(input2.value))) &&
            (m != {} && !Given(input2) ==> r == CheckRun(Err(UndefinedSecond(m)), h.active))
  {
    var vars := RightDataset(h, input2).vars;
    MissingIsDifference(var2, vars);
    var v2 := LowerSet(var2);
    assert v2 * vars <= v2;
    SubsetSameSize(v2 * vars, v2);
    assert v2 - v2 * vars == v2 - vars;
    if Given(input2) { assert |Lower(input2.value)| == |input2.value|; }
  }

  /** Names that differ only in case overlap: VAR1=Age with VAR2=age is refused. */
  lemma CaselessOverlap<V>(h: HostState<V>, input2: Option<string>)
    requires HasActive(h) && h.active != "*"
    ensures Dscheck(h, input2, ["Age"], ["age"]).result == Err(Overlap)
  {
    CaselessNamesOverlap(h, input2, ["Age"], ["age"], 0, 0);
  }

  /**
   * Any VAR1 name and any VAR2 name that differ only in letter case make the
   * lists overlap, whatever the rest of the lists and the engine state.
   */
  lemma CaselessNamesOverlap<V>(h: HostState<V>, input2: Option<string>, var1: seq<string>, var2: seq<string>,
                                i: nat, j: nat)
    requires HasActive(h) && h.active != "*"
    requires i < |var1| && j < |var2| && SameUpToCase(var1[i], var2[j])
    ensures Dscheck(h, input2, var1, var2) == CheckRun(Err(Overlap), h.active)
  {
    LowerCaseless(var1[i], var2[j]);
    assert Lower(var1[i]) in LowerSet(var1) * LowerSet(var2);
  }

  /** On success against a consistent engine, the counts are the two datasets' sizes. */
  lemma CountsAreSizes<V>(h: HostState<V>, input2: Option<string>, var1: seq<string>, var2: seq<string>)
    requires ConsistentHost(h)
    requires Dscheck(h, input2, var1, var2).result.Ok?
    ensures Dscheck(h, input2, var1, var2).result.value.count1 == |ActiveDataset(h).cases|
    ensures Dscheck(h, input2, var1, var2).result.value.count2 == |RightDataset(h, input2).cases|
  {
    CaseCountIsSize(ActiveDataset(h));
    CaseCountIsSize(RightDataset(h, input2));
  }

  /**
   * Naming the active dataset itself as INPUT2 gives the same verdict as
   * leaving INPUT2 out: the same counts on success, and on failure the
   * same reason with the same offending names (only the message of the
   * undefined-variable error differs).
   */
  lemma {:induction false} InputOmittedSameAsActive<V>(h: HostState<V>, var1: seq<string>, var2: seq<string>)
    requires HasActive(h) && h.active != ""
    ensures var without := Dscheck(h, None, var1, var2).result;
            var named := Dscheck(h, Some(h.active), var1, var2).result;
            (without.Ok? <==> named.Ok?) &&
            (without.Ok? ==> without == named) &&
            (without.Err? && without.error.UndefinedSecond? ==> named == Err(UndefinedRight(without.error.missing))) &&
            (without.Err? && !without.error.UndefinedSecond? ==> without == named)
  {
    if h.active != "*" && LowerSet(var1) * LowerSet(var2) == {} {
      MissingNamesListed(h, None, var1, var2);
      MissingNamesListed(h, Some(h.active), var1, var2);
    }
  }
}
